/** Types and helpers shared by the codec and the intersection:
    bytes, the 64-bit range, powers of 128, sortedness and a result type. */
module Common {

  /** One byte of an encoded buffer (`uint8_t` in the program). */
  type Byte = b: int | 0 <= b < 256

  /** 2^64: every value read from the raw 8-byte records lies below it. */
  const U64Limit: nat := 0x1_0000_0000_0000_0000

  predicate IsU64(v: nat) { v < U64Limit }

  /** Every element fits in an unsigned 64-bit integer. */
  predicate AllU64(s: seq<nat>) {
    forall i :: 0 <= i < |s| ==> IsU64(s[i])
  }

  /** 128^k, the weight of the k-th 7-bit group (`1 << (7 * k)`). */
  function Pow128(k: nat): (p: nat)
    ensures p >= 1
  {
    if k == 0 then 1 else 128 * Pow128(k - 1)
  }

  /** The value of digit g in position k: `g << (7 * k)` without overflow. */
  function DigitValue(g: nat, k: nat): (w: nat)
  {
    g * Pow128(k)
  }

  /** Ascending order, as left by `std::sort`. */
  predicate Sorted(s: seq<nat>) {
    forall i, j :: 0 <= i < j < |s| ==> s[i] <= s[j]
  }

  /** Division and remainder are determined by any decomposition
      x == d * q + r with 0 <= r < d. */
  lemma DivModUnique(x: int, d: int, q: int, r: int)
    requires d > 0 && 0 <= r < d && x == d * q + r
    ensures x / d == q && x % d == r
  {
    var k := q - x / d;
    assert x == d * (x / d) + x % d;
    assert d * k == x % d - r by {
      assert d * k == d * q - d * (x / d);
    }
    if k >= 1 { MulAtLeast(d, k); }
    else if k <= -1 { MulAtLeast(d, -k); }
  }

  lemma MulAtLeast(d: int, k: int)
    requires d > 0 && k >= 1
    ensures d * k >= d
  {
    assert d * k == d * (k - 1) + d;
  }

  datatype Result<+T, +E> = Success(value: T) | Failure(error: E)
}
