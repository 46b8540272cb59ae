/**
 * The few JavaScript built-ins the protocol code leans on, stated exactly
 * enough for the inputs the code gives them: the byte conversion done by
 * `Uint8Array` and `DataView.setUint8`, `Number.prototype.toString(radix)` on
 * non-negative integers, `toUpperCase` on ASCII text, `slice(-k)`, and
 * `parseInt(text, 16)`.
 */
module JsRuntime {
  import opened Arith

  /** One byte of a `DataView` or `Uint8Array`, as the number `getUint8`
      returns. */
  newtype byte = x: int | 0 <= x < 256

  datatype Option<+T> = None | Some(value: T)

  /** ToUint8 of an integral number: the value modulo 256 (what a
      `Uint8Array` element store and `DataView.setUint8` keep). */
  function ToUint8(x: int): (b: byte)
    ensures b as int == x % 256
  {
    (x % 256) as byte
  }

  // ---------------------------------------------------------------------------
  // Digits

  predicate IsAlnum(c: char) {
    '0' <= c <= '9' || 'a' <= c <= 'z' || 'A' <= c <= 'Z'
  }

  /** The digit value of an ASCII letter or digit, letters in either case. */
  function DigitValue(c: char): (v: nat)
    requires IsAlnum(c)
    ensures v < 36
  {
    if '0' <= c <= '9' then c as int - '0' as int
    else if 'a' <= c <= 'z' then c as int - 'a' as int + 10
    else c as int - 'A' as int + 10
  }

  predicate IsRadixDigit(c: char, radix: nat) {
    IsAlnum(c) && DigitValue(c) < radix
  }

  /** `[0-9a-fA-F]`: a hexadecimal digit in either case. */
  predicate IsHexDigit(c: char) {
    IsRadixDigit(c, 16)
  }

  predicate AllRadixDigits(s: string, radix: nat) {
    forall i :: 0 <= i < |s| ==> IsRadixDigit(s[i], radix)
  }

  /** The lower-case digit character JavaScript prints for digit value `d`. */
  function DigitChar(d: nat): (c: char)
    requires d < 36
    ensures IsAlnum(c) && DigitValue(c) == d
    ensures !('A' <= c <= 'Z')
  {
    if d < 10 then ('0' as int + d) as char else ('a' as int + d - 10) as char
  }

  /** The number a string of digits denotes in the given radix, most
      significant digit first. */
  function DigitsValue(s: string, radix: nat): nat
    requires AllRadixDigits(s, radix)
  {
    if s == [] then 0
    else DigitsValue(s[..|s| - 1], radix) * radix + DigitValue(s[|s| - 1])
  }

  // ---------------------------------------------------------------------------
  // Number.prototype.toString(radix), String.prototype.toUpperCase, slice(-k)

  /** `n.toString(radix)` for a non-negative integer `n`: lower-case digits,
      most significant first, no leading zero except for `n == 0`. */
  function ToRadixString(n: nat, radix: nat): (s: string)
    requires 2 <= radix <= 36
    ensures |s| >= 1
    decreases n
  {
    QuotientSmaller(n, radix);
    (if n < radix then "" else ToRadixString(n / radix, radix)) + [DigitChar(n % radix)]
  }

  /** `toString(radix)` spells the number: its digits, read in the radix,
      denote `n`, and only `0` itself starts with the digit 0. */
  lemma {:induction false} ToRadixStringValue(n: nat, radix: nat)
    requires 2 <= radix <= 36
    ensures AllRadixDigits(ToRadixString(n, radix), radix)
    ensures DigitsValue(ToRadixString(n, radix), radix) == n
    ensures ToRadixString(n, radix)[0] == '0' ==> n == 0
    decreases n
  {
    var s := ToRadixString(n, radix);
    var m := n % radix;
    var d := DigitChar(m);
    if n < radix {
      DivOfSmaller(n, radix);
      assert s == [d];
      assert s[..0] == [];
    } else {
      QuotientSmaller(n, radix);
      ToRadixStringValue(n / radix, radix);
      ToRadixStringValueStep(n, n / radix, radix);
    }
  }

  lemma ToRadixStringValueStep(n: nat, q: nat, radix: nat)
    requires 2 <= radix <= 36 && n >= radix && q == n / radix
    requires AllRadixDigits(ToRadixString(q, radix), radix)
    requires DigitsValue(ToRadixString(q, radix), radix) == q
    requires ToRadixString(q, radix)[0] == '0' ==> q == 0
    ensures AllRadixDigits(ToRadixString(n, radix), radix)
    ensures DigitsValue(ToRadixString(n, radix), radix) == n
    ensures ToRadixString(n, radix)[0] == '0' ==> n == 0
  {
    var s, t := ToRadixString(n, radix), ToRadixString(q, radix);
    var m := n % radix;
    assert s == t + [DigitChar(m)];
    assert s[..|s| - 1] == t;
    assert DigitsValue(s, radix) == DigitsValue(t, radix) * radix + m;
    QuotientPositive(n, radix);
    DivMod(n, radix);
    assert s[0] == t[0];
  }

  function UpperChar(c: char): char {
    if 'a' <= c <= 'z' then (c as int - 32) as char else c
  }

  /** `toUpperCase` as it acts on ASCII; every string the protocol code
      upper-cases is made of digits and ASCII letters. */
  function UpperCase(s: string): (u: string)
    ensures |u| == |s|
    ensures forall i :: 0 <= i < |s| ==> u[i] == UpperChar(s[i])
  {
    seq(|s|, i requires 0 <= i < |s| => UpperChar(s[i]))
  }

  /** `s.slice(-k)` for `k >= 0`: the last `k` characters, or all of `s` when
      it is shorter. */
  function SliceLast(s: string, k: nat): (t: string)
    ensures |t| == if |s| < k then |s| else k
  {
    if |s| < k then s else s[|s| - k..]
  }

  // ---------------------------------------------------------------------------
  // parseInt(text, 16)

  /** The characters `parseInt` skips at the start: ECMAScript WhiteSpace and
      LineTerminator. */
  predicate IsJsWhiteSpace(c: char) {
    c == '\t' || c == '\n' || c == '\U{B}' || c == '\U{C}' || c == '\r' || c == ' '
    || c == '\U{A0}' || c == '\U{1680}' || ('\U{2000}' <= c <= '\U{200A}')
    || c == '\U{2028}' || c == '\U{2029}' || c == '\U{202F}' || c == '\U{205F}'
    || c == '\U{3000}' || c == '\U{FEFF}'
  }

  function TrimStart(s: string): (t: string)
    ensures |t| <= |s|
  {
    if |s| > 0 && IsJsWhiteSpace(s[0]) then TrimStart(s[1..]) else s
  }

  /** Length of the longest prefix of `s` made of hexadecimal digits. */
  function HexRunLength(s: string): (n: nat)
    ensures n <= |s|
    ensures AllRadixDigits(s[..n], 16)
    ensures n < |s| ==> !IsHexDigit(s[n])
  {
    if |s| > 0 && IsHexDigit(s[0]) then
      var n := 1 + HexRunLength(s[1..]);
      assert s[..n] == [s[0]] + s[1..][..n - 1];
      n
    else 0
  }

  /** `parseInt(text, 16)`; `None` stands for NaN. Leading white space is
      skipped, then one optional sign, then an optional `0x`/`0X` prefix; the
      result is the value of the longest run of hexadecimal digits that
      follows, and NaN when that run is empty. */
  function ParseIntHex(text: string): (v: Option<int>)
  {
    var t := TrimStart(text);
    var negative := |t| > 0 && t[0] == '-';
    var unsigned := if |t| > 0 && (t[0] == '-' || t[0] == '+') then t[1..] else t;
    var digits := if |unsigned| >= 2 && unsigned[0] == '0' && (unsigned[1] == 'x' || unsigned[1] == 'X')
                  then unsigned[2..] else unsigned;
    var run := digits[..HexRunLength(digits)];
    var magnitude: int := DigitsValue(run, 16);
    if run == [] then None
    else if negative then Some(-magnitude)
    else Some(magnitude)
  }

  /** What storing a `parseInt` result into a `Uint8Array` element keeps:
      NaN becomes 0, any other integer is taken modulo 256. */
  function StoreUint8(v: Option<int>): byte {
    match v
    case None => 0
    case Some(x) => ToUint8(x)
  }

  /** Two hexadecimal digits parse to the byte they spell. */
  lemma ParseTwoHexDigits(text: string)
    requires |text| == 2 && IsHexDigit(text[0]) && IsHexDigit(text[1])
    ensures ParseIntHex(text) == Some(DigitValue(text[0]) * 16 + DigitValue(text[1]))
    ensures StoreUint8(ParseIntHex(text)) as int == DigitValue(text[0]) * 16 + DigitValue(text[1])
  {
    assert !IsJsWhiteSpace(text[0]) && text[0] != '-' && text[0] != '+' && text[1] != 'x' && text[1] != 'X';
    assert TrimStart(text) == text;
    assert HexRunLength(text[1..][1..]) == 0;
    assert HexRunLength(text[1..]) == 1;
    assert HexRunLength(text) == 2;
    assert text[..2] == text;
    assert text[..1][..0] == [];
    assert DigitsValue(text[..1], 16) == DigitValue(text[0]);
    assert DigitsValue(text, 16) == DigitValue(text[0]) * 16 + DigitValue(text[1]);
  }
}
