/**
 * BitReader: an MSB-first reader of variable-width codes over a byte buffer. Whole
 * bytes are shifted into a 32-bit accumulator; a read of n bits takes the n bits just
 * below the still-unreturned ones.
 *
 * The accumulator is modelled as a number below 2^32: `value <<= 8; value |= b` is
 * `(value * 256 + b) % 2^32` (Shifted), `value >> r` is r halvings (Shr) and
 * `((1u << n) - 1) & x` keeps the low n bits (Low); for n = 32 the C# shift count
 * is masked to 0, so the mask and the result are 0 (Field).
 *
 * The abstract state is the bit stream still to be read, `StreamBits(buffer)` from
 * offset `Consumed()` on; the accumulator's low bits are the loaded but unreturned
 * part of it (Tied).
 */
module BitReader {
  import opened Wrappers
  import opened ByteIO
  import opened Arith

  /** The number a bit string spells, most significant bit first. */
  function BitsValue(s: seq<bool>): (r: nat)
    ensures r < Pow2(|s|)
  {
    if s == [] then 0 else 2 * BitsValue(s[..|s| - 1]) + (if s[|s| - 1] then 1 else 0)
  }

  /** The number spelled by the n bits of s starting at i. */
  function BitsAt(s: seq<bool>, i: nat, n: nat): nat
    requires i + n <= |s|
  {
    if n == 0 then 0 else 2 * BitsAt(s, i, n - 1) + (if s[i + n - 1] then 1 else 0)
  }

  lemma {:induction false} BitsAtValue(s: seq<bool>, i: nat, n: nat)
    requires i + n <= |s|
    ensures BitsAt(s, i, n) == BitsValue(s[i..i + n])
  {
    if n > 0 {
      BitsAtValue(s, i, n - 1);
      assert s[i..i + n][..n - 1] == s[i..i + n - 1];
    }
  }

  /** The low `w` bits of `n`, most significant first. */
  function NatBits(n: nat, w: nat): (r: seq<bool>)
    ensures |r| == w
  {
    if w == 0 then [] else NatBits(n / 2, w - 1) + [n % 2 == 1]
  }

  /** A byte as eight bits, most significant first. */
  function ByteBits(b: bv8): (r: seq<bool>)
    ensures |r| == 8
  {
    NatBits(b as int, 8)
  }

  /** The bits of a byte buffer in reading order: bit j of byte i is stream bit 8i + j. */
  function StreamBits(bs: Bytes): (r: seq<bool>)
    ensures |r| == 8 * |bs|
  {
    seq(8 * |bs|, k requires 0 <= k < 8 * |bs| => StreamBit(bs, k))
  }

  /** Stream bit k: bit k % 8 of byte k / 8. */
  function StreamBit(bs: Bytes, k: nat): bool
    requires k < 8 * |bs|
  {
    ByteBits(bs[k / 8])[k % 8]
  }

  /** `x >> n`. */
  function Shr(x: nat, n: nat): nat
  {
    if n == 0 then x else Shr(x / 2, n - 1)
  }

  /** `x & ((1 << n) - 1)`. */
  function Low(x: nat, n: nat): nat
  {
    if n == 0 then 0 else 2 * Low(x / 2, n - 1) + x % 2
  }

  /** `value <<= 8; value |= b` on the 32-bit accumulator. */
  function Shifted(v: nat, b: bv8): nat
  {
    (v * 256 + b as int) % TWO_32
  }

  /** `((1u << bits) - 1) & (value >> rest)`, with the five-bit shift count of C#. */
  function Field(v: nat, rest: nat, bits: nat): nat
  {
    if bits >= 32 then 0 else Low(Shr(v, rest), bits)
  }

  function Min32(n: nat): nat { if n < 32 then n else 32 }

  /** The accumulator's low bits (as many as it holds, at most 32) are the last pending bits. */
  ghost predicate Aligned(v: nat, p: seq<bool>)
  {
    NatBits(v, Min32(|p|)) == p[|p| - Min32(|p|)..]
  }

  /** Bit k of the accumulator's tied window agrees with the pending bits. */
  ghost predicate TiedBit(v: nat, p: seq<bool>, k: nat)
    requires k < Min32(|p|)
  {
    NatBits(v, Min32(|p|))[k] == p[|p| - Min32(|p|) + k]
  }

  /** Aligned, stated bit by bit so that the reader's method contracts do not unfold it. */
  ghost predicate Tied(v: nat, p: seq<bool>)
  {
    forall k: nat :: k < Min32(|p|) ==> TiedBit(v, p, k)
  }

  lemma TiedAligned(v: nat, p: seq<bool>)
    ensures Tied(v, p) <==> Aligned(v, p)
  {
    var m := Min32(|p|);
    if Tied(v, p) {
      forall k | 0 <= k < m
        ensures NatBits(v, m)[k] == p[|p| - m..][k]
      {
        assert TiedBit(v, p, k);
      }
    }
  }

  lemma {:induction false} LowValue(x: nat, n: nat)
    ensures BitsValue(NatBits(x, n)) == Low(x, n)
  {
    if n > 0 {
      LowValue(x / 2, n - 1);
      var s := NatBits(x, n);
      assert s[..|s| - 1] == NatBits(x / 2, n - 1);
    }
  }

  lemma {:induction false} LowLe(x: nat, n: nat)
    ensures Low(x, n) <= x
  {
    if n > 0 {
      LowLe(x / 2, n - 1);
    }
  }

  lemma {:induction false} ShrLe(x: nat, n: nat)
    ensures Shr(x, n) <= x
  {
    if n > 0 {
      ShrLe(x / 2, n - 1);
    }
  }

  /** The low a + c bits are the a bits above the lowest c, then the lowest c. */
  lemma {:induction false} NatBitsSplit(x: nat, a: nat, c: nat)
    ensures NatBits(x, a + c) == NatBits(Shr(x, c), a) + NatBits(x, c)
  {
    if c > 0 {
      NatBitsSplit(x / 2, a, c - 1);
      assert NatBits(x, a + c) == NatBits(x / 2, a + c - 1) + [x % 2 == 1];
    }
  }

  lemma LastBits(x: nat, k: nat, j: nat)
    requires j <= k
    ensures NatBits(x, j) == NatBits(x, k)[k - j..]
  {
    NatBitsSplit(x, k - j, j);
  }

  lemma ModHalf(x: nat, m: nat)
    requires m >= 1
    ensures (x % Pow2(m)) / 2 == (x / 2) % Pow2(m - 1) && (x % Pow2(m)) % 2 == x % 2
  {
    var P := Pow2(m - 1);
    var q, r := (x / 2) / P, (x / 2) % P;
    DivMod(x, 2);
    DivMod(x / 2, P);
    assert x == q * (2 * P) + (2 * r + x % 2);
    DivModUnique(x, 2 * P, q, 2 * r + x % 2);
    DivModUnique(2 * r + x % 2, 2, r, x % 2);
  }

  /** The low a bits do not depend on anything above bit m. */
  lemma {:induction false} NatBitsMod(x: nat, m: nat, a: nat)
    requires a <= m
    ensures NatBits(x % Pow2(m), a) == NatBits(x, a)
  {
    if a > 0 {
      ModHalf(x, m);
      NatBitsMod(x / 2, m - 1, a - 1);
    }
  }

  lemma {:induction false} ShrDiv(x: nat, n: nat)
    ensures Shr(x, n) == x / Pow2(n)
  {
    if n > 0 {
      ShrDiv(x / 2, n - 1);
      DivDiv(x, 2, Pow2(n - 1));
    }
  }

  lemma ShiftedParts(v: nat, b: bv8)
    ensures Shifted(v, b) / 256 == v % 0x100_0000 && Shifted(v, b) % 256 == b as int
  {
    var y := Shifted(v, b);
    ModShiftIn(v, b as int, 0x100_0000);
    assert y == (v % 0x100_0000) * 256 + b as int;
    DivModUnique(y, 256, v % 0x100_0000, b as int);
  }

  /** One refill step keeps the accumulator tied to the pending bits. */
  /** Above the new byte, the shifted accumulator holds the old one's low 24 bits. */
  lemma ShiftedHigh(v: nat, b: bv8, a: nat)
    requires a <= 24
    ensures NatBits(Shr(Shifted(v, b), 8), a) == NatBits(v, a)
  {
    ShrDiv(Shifted(v, b), 8);
    Pow2Eight();
    Pow2TwentyFour();
    ShiftedParts(v, b);
    NatBitsMod(v, 24, a);
  }

  /** The lowest eight bits of the shifted accumulator are the new byte. */
  lemma ShiftedLow(v: nat, b: bv8)
    ensures NatBits(Shifted(v, b), 8) == ByteBits(b)
  {
    Pow2Eight();
    ShiftedParts(v, b);
    NatBitsMod(Shifted(v, b), 8, 8);
  }

  lemma ShiftedTied(v: nat, b: bv8, p: seq<bool>)
    requires Aligned(v, p)
    ensures Aligned(Shifted(v, b), p + ByteBits(b))
  {
    var y := Shifted(v, b);
    var n := |p|;
    var k, k' := Min32(n), Min32(n + 8);
    var a := k' - 8;
    NatBitsSplit(y, a, 8);
    ShiftedHigh(v, b, a);
    LastBits(v, k, a);
    ShiftedLow(v, b);
    assert (p + ByteBits(b))[n + 8 - k'..] == p[n - a..] + ByteBits(b);
  }

  /** What a read returns, and what it leaves tied, once `bits` are buffered. */
  lemma ReadOutcome(v: nat, p: seq<bool>, bits: nat, rest: nat)
    requires Aligned(v, p) && |p| == rest + bits && rest <= 31 && 1 <= bits <= 32
    ensures Aligned(v, p[bits..])
    ensures Field(v, rest, bits) <= v
    ensures bits < 32 ==> Field(v, rest, bits) < Pow2(bits)
    ensures |p| <= 32 && bits < 32 ==> Field(v, rest, bits) == BitsValue(p[..bits])
  {
    var k := Min32(|p|);
    LastBits(v, k, rest);
    assert p[|p| - k..][k - rest..] == p[bits..];
    ShrLe(v, rest);
    LowLe(Shr(v, rest), bits);
    LowValue(Shr(v, rest), bits);
    if |p| <= 32 {
      NatBitsSplit(v, bits, rest);
      assert p[|p| - k..] == p;
      assert p[..bits] == NatBits(Shr(v, rest), bits);
    }
  }

  lemma Pow2Below25(n: nat)
    requires n <= 25
    ensures Pow2(n) <= 0x200_0000
  {
    Pow2Mono(n, 25);
    Pow2TwentyFour();
    assert Pow2(25) == 2 * Pow2(24);
  }

  /** Stream bit k is bit k % 8 of byte k / 8. */
  lemma StreamBitAt(bs: Bytes, k: nat)
    requires k < 8 * |bs|
    ensures StreamBits(bs)[k] == ByteBits(bs[k / 8])[k % 8]
  {
  }

  /** The eight bits of byte i sit at bit offsets 8i .. 8i + 8 of the stream. */
  lemma StreamBitsByte(bs: Bytes, i: nat)
    requires i < |bs|
    ensures StreamBits(bs)[8 * i..8 * i + 8] == ByteBits(bs[i])
  {
    var all, bits := StreamBits(bs), ByteBits(bs[i]);
    var slice := all[8 * i..8 * i + 8];
    forall j | 0 <= j < 8
      ensures slice[j] == bits[j]
    {
      var k := 8 * i + j;
      DivModUnique(k, 8, i, j);
      StreamBitAt(bs, k);
      assert slice[j] == all[k];
    }
    assert |slice| == |bits| == 8;
  }

  lemma JoinAt<T>(s: seq<T>, a: nat, b: nat, q: seq<T>)
    requires a <= b && b + |q| <= |s| && s[b..b + |q|] == q
    ensures s[a..b + |q|] == s[a..b] + q
  {
  }

  lemma AppendAligned(all: seq<bool>, start: nat, mid: nat, v: nat, b: bv8)
    requires start <= mid && mid + 8 <= |all| && all[mid..mid + 8] == ByteBits(b)
    requires Aligned(v, all[start..mid])
    ensures Aligned(Shifted(v, b), all[start..mid + 8])
  {
    JoinAt(all, start, mid, ByteBits(b));
    ShiftedTied(v, b, all[start..mid]);
  }

  /** Loading the byte whose bits sit at mid .. mid + 8 extends the tied window by them. */
  lemma LoadByte(all: seq<bool>, start: nat, mid: nat, next: nat, v: nat, b: bv8)
    requires start <= mid && next == mid + 8 <= |all| && all[mid..mid + 8] == ByteBits(b)
    requires Tied(v, all[start..mid])
    ensures Tied(Shifted(v, b), all[start..next])
  {
    TiedAligned(v, all[start..mid]);
    AppendAligned(all, start, mid, v, b);
    TiedAligned(Shifted(v, b), all[start..mid + 8]);
  }

  /** A read of `bits` from the window start .. end leaves start + bits .. end tied. */
  lemma TakeBits(all: seq<bool>, start: nat, end: nat, v: nat, bits: nat, rest: nat)
    requires start + bits + rest == end <= |all| && rest <= 31 && 1 <= bits <= 32
    requires Tied(v, all[start..end])
    ensures Tied(v, all[end - rest..end])
    ensures Field(v, rest, bits) <= v
    ensures bits < 32 ==> Field(v, rest, bits) < Pow2(bits)
    ensures bits + rest <= 32 && bits < 32 ==> Field(v, rest, bits) == BitsAt(all, start, bits)
  {
    BitsAtValue(all, start, bits);
    var loaded := all[start..end];
    TiedAligned(v, loaded);
    ReadOutcome(v, loaded, bits, rest);
    SliceOfSlice(all, start, end, bits);
    TiedAligned(v, loaded[bits..]);
    assert loaded[..bits] == all[start..start + bits];
  }

  lemma SliceOfSlice<T>(s: seq<T>, a: nat, b: nat, c: nat)
    requires a + c <= b <= |s|
    ensures s[a..b][c..] == s[a + c..b]
  {
  }

  class BitReader {
    const buffer: Bytes
    var position: int
    const length: int
    var remainingBits: int
    var value: u32

    /**
     * The number of stream bits already returned. Up to 31 bits stay buffered: a
     * read that ran out of bytes keeps what it loaded, so only successful reads
     * bring the count back to 0..7.
     */
    ghost function Consumed(): int
      reads this
    {
      8 * position - remainingBits
    }

    ghost predicate Valid()
      reads this
    {
      length == |buffer| && 0 <= position <= length &&
      0 <= remainingBits <= 31 && remainingBits <= 8 * position &&
      Tied(value, StreamBits(buffer)[Consumed()..8 * position])
    }

    /** The bits still to be read, in order. */
    ghost function Stream(): seq<bool>
      reads this
      requires Valid()
    {
      StreamBits(buffer)[Consumed()..]
    }

    constructor (buffer: Bytes)
      ensures Valid() && this.buffer == buffer && remainingBits == 0
      ensures position == 0 && length == |buffer| && Stream() == StreamBits(buffer)
    {
      this.buffer := buffer;
      this.position := 0;
      this.length := |buffer|;
      this.remainingBits := 0;
      this.value := 0;
    }

    /** The constructor's null check: a missing buffer is ArgumentNull. */
    static method Create(buffer: Option<Bytes>) returns (r: Result<BitReader>)
      ensures buffer.None? <==> r == Err(ArgumentNull)
      ensures buffer.Some? ==> (r.Ok? && fresh(r.value) && r.value.Valid() &&
        r.value.position == 0 && r.value.length == |buffer.value| &&
        r.value.remainingBits == 0 && r.value.Stream() == StreamBits(buffer.value))
    {
      if buffer.None? {
        return Err(ArgumentNull);
      }
      var reader := new BitReader(buffer.value);
      return Ok(reader);
    }

    /**
     * Reads the next `bits` bits. Out-of-range widths fail before anything changes;
     * running out of bytes fails with EndOfStream after buffering what was there,
     * so no bit of the stream is consumed by a failure. For widths up to 25 the
     * result is the next `bits` bits of the stream as a big-endian number.
     */
    method ReadUInt32(bits: int) returns (r: Result<u32>)
      requires Valid()
      modifies this`position, this`remainingBits, this`value
      ensures Valid()
      ensures (bits <= 0 || bits > 32) ==> (r == Err(ArgumentOutOfRange) &&
        position == old(position) && remainingBits == old(remainingBits) && value == old(value))
      ensures 0 < bits <= 32 ==>
        (r.Ok? <==> old(Consumed()) + bits <= 8 * length) &&
        (r.Err? ==> r.error == EndOfStream && position == length && Consumed() == old(Consumed()))
      ensures r.Ok? ==> 0 < bits <= 32 && Consumed() == old(Consumed()) + bits
      ensures r.Ok? ==> remainingBits <= 7 || remainingBits == old(remainingBits) - bits
      ensures r.Ok? && old(remainingBits) <= 7 ==> remainingBits <= 7
      ensures r.Ok? && bits < 32 ==> r.value < Pow2(bits)
      ensures r.Ok? && bits == 32 ==> r.value == 0
      ensures r.Ok? && bits <= 25 ==>
        r.value == BitsAt(StreamBits(buffer), old(Consumed()), bits)
    {
      if bits <= 0 || bits > 32 {
        return Err(ArgumentOutOfRange);
      }
      ghost var start := Consumed();
      var ok := Refill(bits);
      if !ok {
        return Err(EndOfStream);
      }
      remainingBits := remainingBits - bits;
      var out := Field(value, remainingBits, bits);
      TakeBits(StreamBits(buffer), start, 8 * position, value, bits, remainingBits);
      return Ok(out);
    }

    /**
     * The refill loop of a read: whole bytes are shifted in until `bits` are buffered;
     * ok is false when the buffer ends first, with everything loaded kept buffered.
     */
    method Refill(bits: int) returns (ok: bool)
      requires Valid() && 0 < bits <= 32
      modifies this`position, this`remainingBits, this`value
      ensures 0 <= position <= length == |buffer| && 0 <= remainingBits <= 8 * position
      ensures Consumed() == old(Consumed())
      ensures Tied(value, StreamBits(buffer)[Consumed()..8 * position])
      ensures ok ==> bits <= remainingBits && (remainingBits < bits + 8 || remainingBits == old(remainingBits))
      ensures !ok ==> position == length && remainingBits < bits
    {
      ghost var start := Consumed();
      ghost var all := StreamBits(buffer);
      while remainingBits < bits
        invariant 0 <= position <= length == |buffer|
        invariant 0 <= remainingBits <= 8 * position
        invariant remainingBits < bits + 8 || remainingBits == old(remainingBits)
        invariant Consumed() == start
        invariant Tied(value, all[start..8 * position])
        decreases length - position
      {
        if position >= length {
          return false;
        }
        StreamBitsByte(buffer, position);
        LoadByte(all, start, 8 * position, 8 * (position + 1), value, buffer[position]);
        value := Shifted(value, buffer[position]);
        position := position + 1;
        remainingBits := remainingBits + 8;
      }
      return true;
    }

    /** The unsigned result reinterpreted as a 32-bit signed number. */
    method ReadInt32(bits: int) returns (r: Result<int>)
      requires Valid()
      modifies this`position, this`remainingBits, this`value
      ensures Valid()
      ensures (bits <= 0 || bits > 32) ==> r == Err(ArgumentOutOfRange)
      ensures 0 < bits <= 32 ==> (r.Ok? <==> old(Consumed()) + bits <= 8 * length)
      ensures 0 < bits <= 32 && r.Err? ==> r.error == EndOfStream
      ensures r.Ok? ==> Consumed() == old(Consumed()) + bits && -0x8000_0000 <= r.value < 0x8000_0000
      ensures r.Ok? && old(remainingBits) <= 7 ==> remainingBits <= 7
      ensures r.Ok? && bits <= 25 ==>
        r.value == BitsAt(StreamBits(buffer), old(Consumed()), bits)
    {
      var u := ReadUInt32(bits);
      match u
      case Err(e) => return Err(e);
      case Ok(x) =>
        if bits <= 25 {
          Pow2Below25(bits);
        }
        return Ok(if x >= 0x8000_0000 then x - TWO_32 else x);
    }
  }
}
