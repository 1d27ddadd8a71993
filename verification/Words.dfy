/** Fixed-width unsigned integers of the emulated machine. */
module Words {
  type byte = x: int | 0 <= x < 0x100
  type word = x: int | 0 <= x < 0x1_0000
  type dword = x: int | 0 <= x < 0x1_0000_0000

  /** The little-endian 16-bit value stored at address a. */
  function Get16(m: seq<byte>, a: nat): word
    requires a + 1 < |m|
  {
    var low: int, high: int := m[a], m[a + 1];
    low + 0x100 * high
  }

  function Min(a: int, b: int): int {
    if a <= b then a else b
  }

  /** Quotient and remainder from any way of writing x. */
  lemma QuotientUnique(x: int, y: int, d: int, m: int)
    requires y > 0 && x == d * y + m && 0 <= m < y
    ensures x / y == d && x % y == m
  {
    var q, r := x / y, x % y;
    assert x == q * y + r && 0 <= r < y;
    if q > d {
      TimesAtLeast(q - d, y);
    } else if q < d {
      TimesAtLeast(d - q, y);
    }
  }

  lemma TimesAtLeast(k: int, y: int)
    requires k >= 1 && y > 0
    ensures k * y >= y
  {
  }

  function Pow2(n: nat): (p: nat)
    ensures p > 0
  {
    if n == 0 then 1 else 2 * Pow2(n - 1)
  }

  /** Bit k of v is set. */
  predicate Digit(v: nat, k: nat) {
    v / Pow2(k) % 2 == 1
  }

  /** Halving first or last. */
  lemma HalfFirst(x: int, k: nat)
    ensures x / 2 / Pow2(k) == x / Pow2(k + 1)
  {
    var p := Pow2(k);
    var h := x / 2;
    var d, m := h / p, h % p;
    assert x == d * (2 * p) + (2 * m + x % 2);
    QuotientUnique(x, 2 * p, d, 2 * m + x % 2);
  }
}
