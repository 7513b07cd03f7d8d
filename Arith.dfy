/** Integer facts about powers of two, division and remainder used by the codecs. */
module Arith {
  const TWO_32: int := 0x1_0000_0000

  /** The byte whose value is n, built from its bits, most significant first. */
  function ByteOf(n: nat): (b: bv8)
    requires n < 0x100
    ensures b as int == n
  {
    if n == 0 then 0
    else
      var high := ByteOf(n / 2);
      ShiftInBit(high, n % 2);
      (high << 1) | (if n % 2 == 1 then 1 else 0)
  }

  /** Shifting a bit in at the bottom of a byte below 0x80 doubles it and adds the bit. */
  lemma ShiftInBit(h: bv8, c: nat)
    requires h as int < 0x80 && c < 2
    ensures ((h << 1) | (if c == 1 then 1 else 0)) as int == 2 * h as int + c
  {
  }

  function Pow2(n: nat): (r: nat)
    ensures r >= 1
  {
    if n == 0 then 1 else 2 * Pow2(n - 1)
  }

  lemma {:induction false} Pow2Add(a: nat, b: nat)
    ensures Pow2(a + b) == Pow2(a) * Pow2(b)
  {
    if b > 0 {
      Pow2Add(a, b - 1);
      Twice(Pow2(a), Pow2(b - 1));
    }
  }

  lemma Twice(x: int, y: int)
    ensures 2 * (x * y) == x * (2 * y)
  {
  }

  lemma Pow2Two()
    ensures Pow2(2) == 4
  {
  }

  lemma Pow2Eight()
    ensures Pow2(8) == 256
  {
    assert Pow2(2) == 4;
    assert Pow2(4) == 16;
  }

  lemma Pow2Sixteen()
    ensures Pow2(16) == 0x1_0000
  {
    Pow2Eight();
    Pow2Add(8, 8);
  }

  lemma Pow2TwentyFour()
    ensures Pow2(24) == 0x100_0000
  {
    Pow2Sixteen();
    Pow2Eight();
    Pow2Add(16, 8);
  }

  lemma Pow2ThirtyTwo()
    ensures Pow2(32) == TWO_32
  {
    Pow2Sixteen();
    Pow2Add(16, 16);
  }

  lemma {:induction false} Pow2Mono(a: nat, b: nat)
    requires a <= b
    ensures Pow2(a) <= Pow2(b)
  {
    if a < b {
      Pow2Mono(a, b - 1);
    }
  }

  lemma DivMod(x: int, d: int)
    requires d > 0
    ensures x == (x / d) * d + x % d && 0 <= x % d < d
  {}

  lemma MulMono(a: int, d: int)
    requires a >= 1 && d > 0
    ensures a * d >= d
  {}

  /** Division with remainder has only one answer. */
  lemma DivModUnique(x: int, d: int, q: int, r: int)
    requires d > 0 && x == q * d + r && 0 <= r < d
    ensures x / d == q && x % d == r
  {
    var q', r' := x / d, x % d;
    assert x == q' * d + r';
    if q' > q {
      assert (q' - q) * d == q' * d - q * d;
      MulMono(q' - q, d);
      assert false;
    } else if q' < q {
      assert (q - q') * d == q * d - q' * d;
      MulMono(q - q', d);
      assert false;
    }
  }

  lemma Distrib(q: int, b: int, r: int, a: int)
    ensures (q * b + r) * a == q * (a * b) + r * a
  {}

  lemma MulLe(x: int, y: int, a: int)
    requires 0 <= x <= y && a >= 0
    ensures x * a <= y * a
  {}

  lemma DivDiv(x: int, a: nat, b: nat)
    requires a > 0 && b > 0
    ensures (x / a) / b == x / (a * b)
  {
    var q, r := x / a, x % a;
    var q2, r2 := q / b, q % b;
    DivMod(x, a);
    DivMod(q, b);
    Distrib(q2, b, r2, a);
    assert x == q2 * (a * b) + (r2 * a + r);
    MulLe(r2, b - 1, a);
    assert (b - 1) * a == a * b - a;
    DivModUnique(x, a * b, q2, r2 * a + r);
  }

  /** Shifting a byte in below a residue: the residue modulo p * 256 keeps the byte. */
  lemma ModShiftIn(v: nat, b: nat, p: nat)
    requires p > 0 && b < 256
    ensures (v * 256 + b) % (p * 256) == (v % p) * 256 + b
  {
    var q, r := v / p, v % p;
    assert v == q * p + r;
    assert v * 256 == q * (p * 256) + r * 256;
    assert r * 256 + b < p * 256 by { MulMono(p - r, 256); assert (p - r) * 256 == p * 256 - r * 256; }
    DivModUnique(v * 256 + b, p * 256, q, r * 256 + b);
  }

  function Min(a: int, b: int): int
  {
    if a <= b then a else b
  }

  /** `(n + 3) / 4`: the number of whole words that cover n bytes. */
  function Run(n: nat): (r: nat)
    ensures n <= 4 * r < n + 4
  {
    (n + 3) / 4
  }

  /** Taking m = 4k bytes off the front takes k words off the run. */
  lemma RunAfter(n: nat, m: nat, k: nat)
    requires m == 4 * k && m <= n
    ensures Run(n - m) == Run(n) - k
  {
  }
}
