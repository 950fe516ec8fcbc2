/** Fixed-width unsigned integers and the little arithmetic shared by the other modules. */
module Words {

  const TWO8: int := 0x100
  const TWO16: int := 0x1_0000
  const TWO24: int := 0x100_0000
  const TWO31: int := 0x8000_0000
  const TWO32: int := 0x1_0000_0000
  const TWO64: int := 0x1_0000_0000_0000_0000

  type byte = x: int | 0 <= x < TWO8
  type u32 = x: int | 0 <= x < TWO32
  type i32 = x: int | -TWO31 <= x < TWO31
  type i64 = x: int | -0x8000_0000_0000_0000 <= x < 0x8000_0000_0000_0000

  datatype Option<+T> = None | Some(value: T)

  /** Reduction of any integer to 32 bits, as unsigned C arithmetic does. */
  function Wrap32(x: int): u32 { x % TWO32 }

  /** A cast to uint8_t. */
  function U8(x: int): byte { x % 256 }

  /** The length of n bytes once they are padded to whole blocks of 16, at least one byte of padding. */
  function CbcLength(n: nat): nat { n + 16 - n % 16 }

  function Pow2(n: nat): (r: nat)
    ensures r >= 1
  {
    if n == 0 then 1 else 2 * Pow2(n - 1)
  }

  // ----- division -----

  lemma RemainderBelow(c: nat, n: nat)
    requires n > 0
    ensures c == (c / n) * n + c % n && 0 <= c % n < n
  {
  }

  lemma DivideIs(x: int, d: int, q: int, r: int)
    requires d > 0 && x == q * d + r && 0 <= r < d
    ensures x / d == q && x % d == r
  {
    var p, t := x / d, x % d;
    assert x == p * d + t && 0 <= t < d;
    assert (p - q) * d == r - t;
    assert p - q >= 1 ==> (p - q) * d >= d;
    assert p - q <= -1 ==> (p - q) * d <= 0 - d;
  }

  lemma FloorBelow(x: int, n: int)
    requires n > 0
    ensures x == (x / n) * n + x % n && 0 <= x % n < n
  {
  }

  /** Whole multiples of d do not count modulo d. */
  lemma AddMultiple(r: int, k: int, d: int)
    requires d > 0
    ensures (r + k * d) % d == r % d
  {
    FloorBelow(r, d);
    DivideIs(r + k * d, d, r / d + k, r % d);
  }

  lemma NonNegative(x: int, y: int)
    requires x >= 0 && y >= 0
    ensures x * y >= 0
  {
  }
}
