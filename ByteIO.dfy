/**
 * The fixed-width stream helpers of the Gibbed.IO library (ReadValueU8/U16/U32/U64,
 * ReadValueB8, ReadBytes and their Write counterparts), over an input modelled as a
 * byte sequence with a cursor. A read past the end is EndOfStream; a read never
 * moves the cursor on failure because a failed read ends the whole parse.
 */
module ByteIO {
  import opened Wrappers
  import opened Arith

  type Bytes = seq<bv8>

  /** A .NET string: a sequence of UTF-16 code units. */
  type Text = seq<bv16>

  datatype Endian = Little | Big

  /** Unsigned words used as numbers (lengths, counts, offsets, identifiers). */
  type u8 = x: int | 0 <= x < 0x100
  type u16 = x: int | 0 <= x < 0x1_0000
  type u32 = x: int | 0 <= x < 0x1_0000_0000

  // ---------------------------------------------------------------------------
  // Fixed-width words <-> bytes

  function LeU16(b0: bv8, b1: bv8): bv16 {
    (b0 as bv16) | ((b1 as bv16) << 8)
  }

  lemma LeU16Bytes(x: bv16)
    ensures LeU16((x & 0xFF) as bv8, (x >> 8) as bv8) == x
  {
  }

  function DecodeU16(s: Bytes, e: Endian): (x: bv16)
    requires |s| == 2
  {
    if e == Little then LeU16(s[0], s[1]) else LeU16(s[1], s[0])
  }

  function EncodeU16(x: bv16, e: Endian): (r: Bytes)
    ensures |r| == 2 && DecodeU16(r, e) == x
  {
    LeU16Bytes(x);
    var lo, hi := (x & 0xFF) as bv8, (x >> 8) as bv8;
    if e == Little then [lo, hi] else [hi, lo]
  }

  function LeU32(b0: bv8, b1: bv8, b2: bv8, b3: bv8): bv32 {
    (b0 as bv32) | ((b1 as bv32) << 8) | ((b2 as bv32) << 16) | ((b3 as bv32) << 24)
  }

  lemma LeU32Bytes(x: bv32)
    ensures LeU32((x & 0xFF) as bv8, ((x >> 8) & 0xFF) as bv8, ((x >> 16) & 0xFF) as bv8, (x >> 24) as bv8) == x
  {
  }

  lemma LeU32Injective(b0: bv8, b1: bv8, b2: bv8, b3: bv8)
    ensures var x := LeU32(b0, b1, b2, b3);
      (x & 0xFF) as bv8 == b0 && ((x >> 8) & 0xFF) as bv8 == b1 &&
      ((x >> 16) & 0xFF) as bv8 == b2 && (x >> 24) as bv8 == b3
  {
  }

  function DecodeU32(s: Bytes, e: Endian): (x: bv32)
    requires |s| == 4
  {
    if e == Little then LeU32(s[0], s[1], s[2], s[3]) else LeU32(s[3], s[2], s[1], s[0])
  }

  function EncodeU32(x: bv32, e: Endian): (r: Bytes)
    ensures |r| == 4 && DecodeU32(r, e) == x
  {
    LeU32Bytes(x);
    var b0, b1, b2, b3 := (x & 0xFF) as bv8, ((x >> 8) & 0xFF) as bv8,
                          ((x >> 16) & 0xFF) as bv8, (x >> 24) as bv8;
    if e == Little then [b0, b1, b2, b3] else [b3, b2, b1, b0]
  }

  /** 256 to the power n: one more than the largest n-byte number. */
  function Span(n: nat): (r: nat)
    ensures r >= 1
  {
    if n == 0 then 1 else 0x100 * Span(n - 1)
  }

  /** A little-endian number of any width: the first byte is the lowest. */
  function DecodeLe(s: Bytes): (x: nat)
    ensures x < Span(|s|)
  {
    if s == [] then 0 else s[0] as int + 0x100 * DecodeLe(s[1..])
  }

  /** The n little-endian bytes of x. */
  function EncodeLe(x: nat, n: nat): (r: Bytes)
    ensures |r| == n
  {
    if n == 0 then [] else [ByteOf(x % 0x100)] + EncodeLe(x / 0x100, n - 1)
  }

  lemma {:induction false} DecodeEncodeLe(x: nat, n: nat)
    requires x < Span(n)
    ensures DecodeLe(EncodeLe(x, n)) == x
  {
    if n > 0 {
      var r := EncodeLe(x, n);
      assert r[0] as int == x % 0x100 && r[1..] == EncodeLe(x / 0x100, n - 1);
      DecodeEncodeLe(x / 0x100, n - 1);
    }
  }

  /** The bytes of a word in little-endian order: as stored, or reversed for big-endian. */
  function InOrder(s: Bytes, e: Endian): (r: Bytes)
    ensures |r| == |s|
  {
    if e == Little then s else Reversed(s)
  }

  function Reversed(s: Bytes): (r: Bytes)
    ensures |r| == |s|
  {
    if s == [] then [] else Reversed(s[1..]) + [s[0]]
  }

  lemma {:induction false} ReversedTwice(s: Bytes)
    ensures Reversed(Reversed(s)) == s
  {
    if s != [] {
      ReversedTwice(s[1..]);
      ReversedAppend(Reversed(s[1..]), [s[0]]);
      assert Reversed([s[0]]) == [s[0]];
      assert s == [s[0]] + s[1..];
    }
  }

  lemma {:induction false} ReversedAppend(u: Bytes, v: Bytes)
    ensures Reversed(u + v) == Reversed(v) + Reversed(u)
  {
    if u == [] {
      assert u + v == v;
    } else {
      assert (u + v)[1..] == u[1..] + v;
      ReversedAppend(u[1..], v);
    }
  }

  lemma InOrderTwice(s: Bytes, e: Endian)
    ensures InOrder(InOrder(s, e), e) == s
  {
    if e == Big {
      ReversedTwice(s);
    }
  }

  /** A little- or big-endian 16-bit number. */
  function DecodeU16N(s: Bytes, e: Endian): (x: u16)
    requires |s| == 2
  {
    DecodeLe(InOrder(s, e))
  }

  function EncodeU16N(x: u16, e: Endian): (r: Bytes)
    ensures |r| == 2
  {
    InOrder(EncodeLe(x, 2), e)
  }

  lemma DecodeEncodeU16N(x: u16, e: Endian)
    ensures DecodeU16N(EncodeU16N(x, e), e) == x
  {
    DecodeEncodeLe(x, 2);
    InOrderTwice(EncodeLe(x, 2), e);
  }

  /** A little- or big-endian 32-bit number. */
  function DecodeU32N(s: Bytes, e: Endian): (x: u32)
    requires |s| == 4
  {
    DecodeLe(InOrder(s, e))
  }

  function EncodeU32N(x: u32, e: Endian): (r: Bytes)
    ensures |r| == 4
  {
    InOrder(EncodeLe(x, 4), e)
  }

  lemma DecodeEncodeU32N(x: u32, e: Endian)
    ensures DecodeU32N(EncodeU32N(x, e), e) == x
  {
    DecodeEncodeLe(x, 4);
    InOrderTwice(EncodeLe(x, 4), e);
  }

  lemma {:induction false} EncodeDecodeLe(s: Bytes)
    ensures EncodeLe(DecodeLe(s), |s|) == s
  {
    if s != [] {
      DivModUnique(DecodeLe(s), 0x100, DecodeLe(s[1..]), s[0] as int);
      EncodeDecodeLe(s[1..]);
      assert ByteOf(s[0] as int) == s[0];
      assert s == [s[0]] + s[1..];
    }
  }

  /** Bytes -> number -> bytes is the identity for any four bytes. */
  lemma EncodeDecodeU32N(s: Bytes, e: Endian)
    requires |s| == 4
    ensures EncodeU32N(DecodeU32N(s, e), e) == s
  {
    EncodeDecodeLe(InOrder(s, e));
    InOrderTwice(s, e);
  }

  function DecodeU64(s: Bytes): (x: bv64)
    requires |s| == 8
  {
    (DecodeU32(s[..4], Little) as bv64) | ((DecodeU32(s[4..], Little) as bv64) << 32)
  }

  function EncodeU64(x: bv64): (r: Bytes)
    ensures |r| == 8
  {
    EncodeU32((x & 0xFFFF_FFFF) as bv32, Little) + EncodeU32((x >> 32) as bv32, Little)
  }

  /** Bytes -> word -> bytes is the identity (every 4-byte group is a valid encoding). */
  lemma EncodeDecodeU32(s: Bytes, e: Endian)
    requires |s| == 4
    ensures EncodeU32(DecodeU32(s, e), e) == s
  {
    if e == Little {
      LeU32Injective(s[0], s[1], s[2], s[3]);
    } else {
      LeU32Injective(s[3], s[2], s[1], s[0]);
    }
  }

  lemma DecodeEncodeU64(x: bv64)
    ensures DecodeU64(EncodeU64(x)) == x
  {
    var r := EncodeU64(x);
    assert r[..4] == EncodeU32((x & 0xFFFF_FFFF) as bv32, Little);
    assert r[4..] == EncodeU32((x >> 32) as bv32, Little);
  }

  /** A signed 32-bit count written by WriteValueS32; .NET array lengths are never negative. */
  function EncodeCount(n: nat, e: Endian): (r: Bytes)
    ensures |r| == 4
    ensures n < TWO_32 ==> r == EncodeU32N(n, e)
  {
    if n < TWO_32 then EncodeU32N(n, e) else EncodeU32N(n % TWO_32, e)
  }

  /** WriteValueB8: true is 1, false is 0. */
  function EncodeBool(b: bool): (r: Bytes)
    ensures |r| == 1
  {
    if b then [1] else [0]
  }

  /** A fresh byte array's contents: `n` zeros. */
  function Zeros(n: nat): (r: Bytes)
    ensures |r| == n && forall i :: 0 <= i < n ==> r[i] == 0
  {
    seq(n, _ => 0)
  }

  // ---------------------------------------------------------------------------
  // Cursor reads

  /** ReadBytes(n): exactly n bytes or EndOfStream. */
  function ReadBytes(s: Bytes, pos: nat, n: nat): (r: Result<(Bytes, nat)>)
    ensures r.Ok? <==> pos + n <= |s|
    ensures r.Ok? ==> r.value.1 == pos + n && |r.value.0| == n
  {
    if pos + n <= |s| then Ok((s[pos..pos + n], pos + n)) else Err(EndOfStream)
  }

  function ReadU8(s: Bytes, pos: nat): (r: Result<(bv8, nat)>)
    ensures r.Ok? <==> pos < |s|
    ensures r.Ok? ==> r.value.1 == pos + 1
  {
    if pos < |s| then Ok((s[pos], pos + 1)) else Err(EndOfStream)
  }

  /** ReadValueB8: any non-zero byte reads as true. */
  function ReadBool(s: Bytes, pos: nat): (r: Result<(bool, nat)>)
    ensures r.Ok? <==> pos < |s|
    ensures r.Ok? ==> r.value.1 == pos + 1
  {
    var b :- ReadU8(s, pos);
    Ok((b.0 != 0, b.1))
  }

  function ReadU16(s: Bytes, pos: nat, e: Endian): (r: Result<(bv16, nat)>)
    ensures r.Ok? <==> pos + 2 <= |s|
    ensures r.Ok? ==> r.value.1 == pos + 2
  {
    var b :- ReadBytes(s, pos, 2);
    Ok((DecodeU16(b.0, e), b.1))
  }

  function ReadU32(s: Bytes, pos: nat, e: Endian): (r: Result<(bv32, nat)>)
    ensures r.Ok? <==> pos + 4 <= |s|
    ensures r.Ok? ==> r.value.1 == pos + 4
  {
    var b :- ReadBytes(s, pos, 4);
    Ok((DecodeU32(b.0, e), b.1))
  }

  function ReadU16N(s: Bytes, pos: nat, e: Endian): (r: Result<(u16, nat)>)
    ensures r.Ok? <==> pos + 2 <= |s|
    ensures r.Ok? ==> r.value.1 == pos + 2
  {
    var b :- ReadBytes(s, pos, 2);
    Ok((DecodeU16N(b.0, e), b.1))
  }

  function ReadU32N(s: Bytes, pos: nat, e: Endian): (r: Result<(u32, nat)>)
    ensures r.Ok? <==> pos + 4 <= |s|
    ensures r.Ok? ==> r.value.1 == pos + 4
  {
    var b :- ReadBytes(s, pos, 4);
    Ok((DecodeU32N(b.0, e), b.1))
  }

  function ReadU64(s: Bytes, pos: nat): (r: Result<(bv64, nat)>)
    ensures r.Ok? <==> pos + 8 <= |s|
    ensures r.Ok? ==> r.value.1 == pos + 8
  {
    var b :- ReadBytes(s, pos, 8);
    Ok((DecodeU64(b.0), b.1))
  }

  // ---------------------------------------------------------------------------
  // Reading back what was written: the building blocks of every round trip

  /**
   * `w` sits in `s` at `p`. The slice equality is kept behind a quantifier over the one
   * position p, so that a proof sees it only where it names `Sits` (as AtSlice does).
   */
  predicate At(s: Bytes, p: nat, w: Bytes)
  {
    p + |w| <= |s| && forall q | q == p :: Sits(s, q, w)
  }

  predicate Sits(s: Bytes, q: nat, w: Bytes)
    requires q + |w| <= |s|
  {
    s[q..q + |w|] == w
  }

  /** At is exactly the slice of `s` at `p` being `w`. */
  lemma AtSlice(s: Bytes, p: nat, w: Bytes)
    ensures At(s, p, w) <==> p + |w| <= |s| && s[p..p + |w|] == w
  {
    if p + |w| <= |s| {
      assert Sits(s, p, w) <==> s[p..p + |w|] == w;
    }
  }

  /** A block written at p+|u| of a longer write u+v starting at p. */
  lemma AtSplit(s: Bytes, p: nat, u: Bytes, v: Bytes)
    requires At(s, p, u + v)
    ensures At(s, p, u) && At(s, p + |u|, v)
  {
    AtSlice(s, p, u + v);
    AtSlice(s, p, u);
    AtSlice(s, p + |u|, v);
    assert s[p..p + |u|] == (u + v)[..|u|];
    assert s[p + |u|..p + |u| + |v|] == (u + v)[|u|..];
  }

  /** The four blocks of a write a+b+c+d, each where it starts. */
  lemma AtSplit4(s: Bytes, p: nat, a: Bytes, b: Bytes, c: Bytes, d: Bytes)
    requires At(s, p, a + b + c + d)
    ensures At(s, p, a) && At(s, p + |a|, b) && At(s, p + |a| + |b|, c) && At(s, p + |a| + |b| + |c|, d)
  {
    AtSplit(s, p, a + b + c, d);
    AtSplit(s, p, a + b, c);
    AtSplit(s, p, a, b);
  }

  lemma ReadBytesAt(s: Bytes, p: nat, w: Bytes)
    requires At(s, p, w)
    ensures ReadBytes(s, p, |w|) == Ok((w, p + |w|))
  {
    AtSlice(s, p, w);
  }

  lemma ReadU8At(s: Bytes, p: nat, x: bv8)
    requires At(s, p, [x])
    ensures ReadU8(s, p) == Ok((x, p + 1))
  {
    AtSlice(s, p, [x]);
    assert s[p] == s[p..p + 1][0];
  }

  lemma ReadBoolAt(s: Bytes, p: nat, b: bool)
    requires At(s, p, EncodeBool(b))
    ensures ReadBool(s, p) == Ok((b, p + 1))
  {
    ReadU8At(s, p, if b then 1 else 0);
  }

  lemma ReadU16At(s: Bytes, p: nat, x: bv16, e: Endian)
    requires At(s, p, EncodeU16(x, e))
    ensures ReadU16(s, p, e) == Ok((x, p + 2))
  {
    ReadBytesAt(s, p, EncodeU16(x, e));
  }

  lemma ReadU32At(s: Bytes, p: nat, x: bv32, e: Endian)
    requires At(s, p, EncodeU32(x, e))
    ensures ReadU32(s, p, e) == Ok((x, p + 4))
  {
    ReadBytesAt(s, p, EncodeU32(x, e));
  }

  lemma ReadU16NAt(s: Bytes, p: nat, x: u16, e: Endian)
    requires At(s, p, EncodeU16N(x, e))
    ensures ReadU16N(s, p, e) == Ok((x, p + 2))
  {
    ReadBytesAt(s, p, EncodeU16N(x, e));
    DecodeEncodeU16N(x, e);
  }

  lemma ReadU32NAt(s: Bytes, p: nat, x: u32, e: Endian)
    requires At(s, p, EncodeU32N(x, e))
    ensures ReadU32N(s, p, e) == Ok((x, p + 4))
  {
    ReadBytesAt(s, p, EncodeU32N(x, e));
    DecodeEncodeU32N(x, e);
  }

  /** A count written as S32 and read back as U32 is the count itself while it fits in 32 bits. */
  lemma ReadCountAt(s: Bytes, p: nat, n: nat, e: Endian)
    requires n < TWO_32 && At(s, p, EncodeCount(n, e))
    ensures ReadU32N(s, p, e) == Ok((n, p + 4))
  {
    ReadU32NAt(s, p, n, e);
  }
}
