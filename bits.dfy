/** Bitwise AND and right shift on naturals, defined bit by bit, so that the
    masking encoder (`num & 0x7F`, `num >> 7`) can be compared with the
    arithmetic one (`num % 128`, `num /= 128`). */
module Bits {

  import opened Common

  function Pow2(k: nat): (p: nat)
    ensures p >= 1
  {
    if k == 0 then 1 else 2 * Pow2(k - 1)
  }

  /** Bitwise AND: the lowest bit is set when both lowest bits are. */
  function And(x: nat, y: nat): (r: nat)
  {
    if x == 0 || y == 0 then 0
    else 2 * And(x / 2, y / 2) + (if x % 2 == 1 && y % 2 == 1 then 1 else 0)
  }

  /** Logical right shift by k bits: k halvings. */
  function ShiftRight(x: nat, k: nat): (r: nat)
  {
    if k == 0 then x else ShiftRight(x / 2, k - 1)
  }

  /** Masking with k one-bits keeps the remainder modulo 2^k. */
  lemma {:induction false} AndLowMask(x: nat, k: nat)
    ensures And(x, Pow2(k) - 1) == x % Pow2(k)
  {
    if k == 0 || x == 0 {
    } else {
      AndLowMask(x / 2, k - 1);
      var m := Pow2(k - 1);
      assert Pow2(k) - 1 == 2 * (m - 1) + 1;
      assert (Pow2(k) - 1) / 2 == m - 1;
      assert (Pow2(k) - 1) % 2 == 1;
      HalfDivMod(x, m);
    }
  }

  /** Shifting right by k bits divides by 2^k. */
  lemma {:induction false} ShiftRightIsDiv(x: nat, k: nat)
    ensures ShiftRight(x, k) == x / Pow2(k)
  {
    if k > 0 {
      ShiftRightIsDiv(x / 2, k - 1);
      HalfDivMod(x, Pow2(k - 1));
    }
  }

  /** Splitting off the lowest bit: quotient and remainder by 2m in terms
      of those of x / 2 by m. */
  lemma HalfDivMod(x: nat, m: nat)
    requires m >= 1
    ensures x / 2 / m == x / (2 * m)
    ensures x % (2 * m) == 2 * ((x / 2) % m) + x % 2
  {
    var q := x / 2 / m;
    var r := (x / 2) % m;
    assert x / 2 == m * q + r;
    assert x == (2 * m) * q + (2 * r + x % 2);
    DivModUnique(x, 2 * m, q, 2 * r + x % 2);
  }

  /** The two 7-bit steps of the encoder agree: `num & 0x7F == num % 128`
      and `num >> 7 == num / 128`. */
  lemma MaskAndShift7(x: nat)
    ensures And(x, 0x7F) == x % 128
    ensures ShiftRight(x, 7) == x / 128
  {
    assert Pow2(7) == 128;
    AndLowMask(x, 7);
    ShiftRightIsDiv(x, 7);
  }
}
