/**
 * 32-bit machine words as numbers in 0 .. 2^32 - 1. C#'s `int` and `uint`
 * fields are two's-complement patterns of this width: `+` and `*` wrap modulo 2^32,
 * `<<` drops the bits shifted out, and a cast to `uint` before `>>` makes the shift
 * logical. The bitwise operators are defined bit by bit, from the least significant
 * bit up.
 */
module Word32 {
  import opened Arith
  import opened ByteIO

  /** `x + y` in 32-bit arithmetic: the carry out of bit 31 is dropped. */
  function Add(x: u32, y: u32): (r: u32)
    ensures r == (x + y) % TWO_32
  {
    if x + y < TWO_32 then x + y else x + y - TWO_32
  }

  /** `x << 1`: bit 31 is dropped. */
  function Double(x: u32): (r: u32)
    ensures r == (2 * x) % TWO_32
  {
    if 2 * x < TWO_32 then 2 * x else 2 * x - TWO_32
  }

  /** `x << n` for a shift count below 32: the bits pushed past bit 31 are lost. */
  function Shl(x: u32, n: nat): (r: u32)
    requires n < 32
  {
    Doubled(n, x)
  }

  /** x shifted left by one place, n times. */
  function Doubled(n: nat, x: u32): u32
  {
    if n == 0 then x else Doubled(n - 1, Double(x))
  }

  /** The logical shift `x >> n`: zeros come in at the top. */
  function Shr(x: u32, n: nat): (r: u32)
    ensures r <= x
  {
    if n == 0 then x else Shr(x / 2, n - 1)
  }

  /** Shifting left by n multiplies by 2^n modulo 2^32. */
  lemma {:induction false} ShlValue(x: u32, n: nat)
    requires n < 32
    ensures Shl(x, n) == (x * Pow2(n)) % TWO_32
    decreases n
  {
    if n > 0 {
      ShlValue(Double(x), n - 1);
      ModMulPow2(x, n);
    }
  }

  /** Shifting right by n divides by 2^n. */
  lemma {:induction false} ShrValue(x: u32, n: nat)
    ensures Shr(x, n) == x / Pow2(n)
    decreases n
  {
    if n > 0 {
      ShrValue(x / 2, n - 1);
      DivDiv(x, 2, Pow2(n - 1));
    }
  }

  lemma ModMulPow2(x: u32, n: nat)
    requires 0 < n < 32
    ensures (Double(x) * Pow2(n - 1)) % TWO_32 == (x * Pow2(n)) % TWO_32
  {
    var p := Pow2(n - 1);
    assert Pow2(n) == 2 * p;
    if 2 * x >= TWO_32 {
      assert x * Pow2(n) == Double(x) * p + p * TWO_32 by {
        assert x * (2 * p) == (2 * x) * p;
        assert (2 * x) * p == (Double(x) + TWO_32) * p;
      }
      ModAddMultiple(Double(x) * p, p);
    }
  }

  lemma ModAddMultiple(a: nat, k: nat)
    ensures (a + k * TWO_32) % TWO_32 == a % TWO_32
  {
    DivMod(a, TWO_32);
    DivModUnique(a + k * TWO_32, TWO_32, a / TWO_32 + k, a % TWO_32);
  }

  /** The low n bits of x XOR y. */
  function XorBits(x: nat, y: nat, n: nat): (r: nat)
    ensures r < Pow2(n)
  {
    if n == 0 then 0 else 2 * XorBits(x / 2, y / 2, n - 1) + (x % 2 + y % 2) % 2
  }

  /** The low n bits of x AND y. */
  function AndBits(x: nat, y: nat, n: nat): (r: nat)
    ensures r < Pow2(n)
  {
    if n == 0 then 0 else 2 * AndBits(x / 2, y / 2, n - 1) + (x % 2 + y % 2) / 2
  }

  /** The low n bits of x OR y. */
  function OrBits(x: nat, y: nat, n: nat): (r: nat)
    ensures r < Pow2(n)
  {
    if n == 0 then 0 else 2 * OrBits(x / 2, y / 2, n - 1) + (x % 2 + y % 2 + 1) / 2
  }

  function Xor(x: u32, y: u32): (r: u32)
  {
    Pow2ThirtyTwo();
    XorBits(x, y, 32)
  }

  function And(x: u32, y: u32): (r: u32)
  {
    Pow2ThirtyTwo();
    AndBits(x, y, 32)
  }

  function Or(x: u32, y: u32): (r: u32)
  {
    Pow2ThirtyTwo();
    OrBits(x, y, 32)
  }
}
