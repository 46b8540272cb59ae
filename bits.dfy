/**
 * Bitwise AND and OR on non-negative integers, as JavaScript's `&` and `|`
 * act on the small non-negative values the protocol code combines (bytes
 * read with `getUint8` and sixteen-bit words built from them), together
 * with the arithmetic meaning of the masks the code uses.
 */
module Bits {
  import opened Arith

  function Pow2(k: nat): (p: nat)
    ensures p >= 1
  {
    if k == 0 then 1 else 2 * Pow2(k - 1)
  }

  /** `x & m`: bit `i` of the result is set iff it is set in both. */
  function And(x: nat, m: nat): nat
    decreases x
  {
    if x == 0 || m == 0 then 0
    else 2 * And(x / 2, m / 2) + (if x % 2 == 1 && m % 2 == 1 then 1 else 0)
  }

  /** `x | y`: bit `i` of the result is set iff it is set in either. */
  function Or(x: nat, y: nat): nat
    decreases x + y
  {
    if x == 0 then y
    else if y == 0 then x
    else 2 * Or(x / 2, y / 2) + (if x % 2 == 1 || y % 2 == 1 then 1 else 0)
  }

  /** A mask of `k` bits starting at bit `low` keeps that field in place. */
  lemma {:induction false} AndField(x: nat, low: nat, k: nat)
    ensures And(x, (Pow2(k) - 1) * Pow2(low)) == x / Pow2(low) % Pow2(k) * Pow2(low)
    decreases low
  {
    var m := (Pow2(k) - 1) * Pow2(low);
    var p := Pow2(k);
    if low == 0 {
      assert Pow2(low) == 1 && m == p - 1;
      AndLowMask(x, m, p, k);
      assert x / 1 == x;
    } else if k == 0 {
      assert m == 0;
      assert x / Pow2(low) % 1 == 0;
    } else if x == 0 {
      DivOfSmaller(0, Pow2(low));
    } else {
      var f, q := p - 1, Pow2(low - 1);
      assert Pow2(low) == 2 * q;
      assert m == 2 * (f * q);
      assert m / 2 == f * q && m % 2 == 0;
      AndField(x / 2, low - 1, k);
      DivDiv(x, 2, q);
      var a := x / (2 * q) % p;
      assert And(x, m) == 2 * (a * q);
      MulSwap(2, a, q);
    }
  }

  /** A value shifted left by `k` bits and a value below `2^k` occupy
      different bits, so OR-ing them adds them. */
  lemma {:induction false} OrShifted(x: nat, y: nat, k: nat)
    requires y < Pow2(k)
    ensures Or(x * Pow2(k), y) == x * Pow2(k) + y
    decreases k
  {
    if k == 0 {
    } else if x == 0 {
    } else if y == 0 {
    } else {
      var p := Pow2(k - 1);
      assert x * Pow2(k) == 2 * (x * p);
      DivMod(y, 2);
      OrShifted(x, y / 2, k - 1);
      assert Or(x * Pow2(k), y) == 2 * Or(x * p, y / 2) + y % 2;
    }
  }

  // ---------------------------------------------------------------------------
  // The masks the protocol code uses

  lemma Masks()
    ensures Pow2(1) == 2 && Pow2(2) == 4 && Pow2(3) == 8 && Pow2(4) == 16
    ensures Pow2(8) == 256 && Pow2(9) == 512
  {
  }

  /** A mask of the `k` low bits, such as `0x07`, `0x0F`, `0xFF` or
      `0x01FF`, keeps the value modulo `2^k`. */
  lemma {:induction false} AndLowMask(x: nat, mask: nat, size: nat, k: nat)
    requires size == Pow2(k) && mask == size - 1
    ensures And(x, mask) == x % size
    decreases k
  {
    if k == 0 {
    } else if x == 0 {
    } else {
      var half := Pow2(k - 1);
      assert size == half * 2;
      assert mask / 2 == half - 1 && mask % 2 == 1;
      AndLowMask(x / 2, half - 1, half, k - 1);
      assert And(x, mask) == (x / 2 % half) * 2 + x % 2;
      ModStep(x, 2, half);
    }
  }

  /** A literal mask of a bit field, such as `0x80`, `0x60`, `0x18` or
      `0xF0`, keeps that field in place. */
  lemma AndFieldMask(x: nat, mask: nat, unit: nat, low: nat, size: nat, k: nat)
    requires unit == Pow2(low) && size == Pow2(k) && mask == (size - 1) * unit
    ensures And(x, mask) == x / unit % size * unit
  {
    AndField(x, low, k);
  }

  /** `(hi << 8) | lo` for two bytes: the sixteen-bit word, `hi` high. */
  lemma OrWord(hi: nat, lo: nat)
    requires lo < 256
    ensures Or(hi * 256, lo) == hi * 256 + lo
  {
    Masks();
    OrShifted(hi, lo, 8);
  }

  /** `(n << 4) | lo` for a nibble in the high half: the byte `16n + lo`. */
  lemma OrNibble(n: nat, lo: nat)
    requires lo < 16
    ensures Or(n * 16, lo) == n * 16 + lo
  {
    Masks();
    OrShifted(n, lo, 4);
  }
}
