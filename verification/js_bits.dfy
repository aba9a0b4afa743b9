/** JavaScript's 32-bit bitwise operators on integer-valued numbers, written
    out over unbounded integers. A 32-bit pattern is kept as a number in
    [0, 2^32); the signed reading of that pattern only matters for `>>`. */
module JsBits {

  const TWO32: int := 0x1_0000_0000

  function Pow2(k: nat): (p: nat)
    ensures p >= 1
  {
    if k == 0 then 1 else 2 * Pow2(k - 1)
  }

  /** ToUint32: the bit pattern an operand is reduced to. */
  function Bits(x: int): (u: nat)
    ensures u < TWO32
  {
    x % TWO32
  }

  /** ToInt32: the signed reading of that pattern. */
  function Signed(x: int): (s: int)
    ensures -0x8000_0000 <= s < 0x8000_0000
    ensures s % TWO32 == Bits(x)
  {
    var u := Bits(x);
    if u < 0x8000_0000 then u else u - TWO32
  }

  /** Bitwise or of two natural numbers, bit by bit from the bottom. */
  function BitOr(a: nat, b: nat): nat
    decreases a + b
  {
    if a == 0 then b
    else if b == 0 then a
    else 2 * BitOr(a / 2, b / 2) + (if a % 2 == 1 || b % 2 == 1 then 1 else 0)
  }

  /** `a | b` */
  function Or(a: int, b: int): nat
  {
    BitOr(Bits(a), Bits(b))
  }

  /** `a << k` for a shift count below 32. */
  function Shl(a: int, k: nat): (r: nat)
    requires k < 32
    ensures r < TWO32
  {
    (Bits(a) * Pow2(k)) % TWO32
  }

  /** `a >> k` (sign-propagating) for a shift count below 32. */
  function Sar(a: int, k: nat): int
    requires k < 32
  {
    Signed(a) / Pow2(k)
  }

  /** `a & 0xFFFF` */
  function Low16(a: int): (r: nat)
    ensures r < 0x1_0000
  {
    Bits(a) % 0x1_0000
  }

  /** When the set bits of `a` all lie below bit k, or-ing in a multiple of
      2^k is adding it. */
  lemma {:induction false} DisjointOrIsSum(a: nat, c: nat, k: nat)
    requires a < Pow2(k)
    ensures BitOr(a, Pow2(k) * c) == a + Pow2(k) * c
  {
    var b := Pow2(k) * c;
    if a == 0 || b == 0 {
    } else {
      var half := Pow2(k - 1) * c;
      assert b == 2 * half;
      assert b / 2 == half && b % 2 == 0;
      DisjointOrIsSum(a / 2, c, k - 1);
      assert BitOr(a, b) == 2 * (a / 2 + half) + a % 2;
    }
  }

  lemma Pow2Values()
    ensures Pow2(5) == 32 && Pow2(9) == 512 && Pow2(11) == 2048 && Pow2(1) == 2
  {
  }
}
