/**
 * The Rebirth archive container: the "ARCH000" header and its index of 20-byte
 * records, the entry name hashes, the entry checksum and the two "Bogocrypt" XOR
 * ciphers. The name hashes and cipher keys are bit-vectors, so their arithmetic wraps
 * as C#'s `uint` does; the checksum is a ranged `u32` whose every step is taken
 * mod 2^32 (Mix).
 */
module RebirthArchive {
  import opened Wrappers
  import opened ByteIO
  import opened Arith
  import opened Word32
  import Isaac

  // ---------------------------------------------------------------------------
  // Index entries

  /** One index record: two name hashes, the data offset and length, and a checksum. */
  datatype Entry = Entry(nameHashA: bv32, nameHashB: bv32, offset: bv32, length: bv32, checksum: bv32)
  {
    /** Both name hashes in one 64-bit key: A in the low half, B in the high half. */
    function CombinedNameHash(): (h: bv64)
      ensures h & 0xFFFF_FFFF == nameHashA as bv64 && h >> 32 == nameHashB as bv64
    {
      Combine(nameHashA, nameHashB)
    }

    /** The Bogocrypt1 key: hash B with a fixed mask, forced odd. */
    function BogocryptKey(): (k: bv32)
      ensures k & 1 == 1
      ensures k & 0xFFFF_FFFE == (nameHashB ^ 0xF952_4287) & 0xFFFF_FFFE
    {
      (nameHashB ^ 0xF952_4287) | 1
    }
  }

  /** Two 32-bit words side by side in a 64-bit word, `a` in the low half. */
  function Combine(a: bv32, b: bv32): bv64
  {
    (a as bv64) | ((b as bv64) << 32)
  }

  lemma CombineInjective(a: bv32, b: bv32, c: bv32, d: bv32)
    ensures Combine(a, b) == Combine(c, d) ==> a == c && b == d
  {
    CombineHalves(a, b);
    CombineHalves(c, d);
  }

  /** Each half of the combined word can be read back. */
  lemma CombineHalves(a: bv32, b: bv32)
    ensures Combine(a, b) & 0xFFFF_FFFF == a as bv64 && Combine(a, b) >> 32 == b as bv64
  {
  }

  // ---------------------------------------------------------------------------
  // Name hashes

  /** ToLowerInvariant on one code unit, for the ASCII letters. */
  function LowerChar(c: bv16): (r: bv16)
    ensures 0x41 <= c <= 0x5A ==> r == c + 0x20
    ensures !(0x41 <= c <= 0x5A) ==> r == c
  {
    if 0x41 <= c <= 0x5A then c + 0x20 else c
  }

  function Lower(p: Text): (r: Text)
    ensures |r| == |p| && forall i :: 0 <= i < |p| ==> r[i] == LowerChar(p[i])
  {
    seq(|p|, i requires 0 <= i < |p| => LowerChar(p[i]))
  }

  /** Lower-casing twice is lower-casing once. */
  lemma LowerIdempotent(p: Text)
    ensures Lower(Lower(p)) == Lower(p)
  {
    assert forall i :: 0 <= i < |p| ==> LowerChar(LowerChar(p[i])) == LowerChar(p[i]);
  }

  /** The cast `(byte)c`: the low eight bits of a code unit. */
  function LowByte(c: bv16): bv8
  {
    (c & 0xFF) as bv8
  }

  /** One step of ComputeNameHashA: times 33, plus the byte. */
  function StepA(h: bv32, b: bv8): bv32
  {
    h * 33 + b as bv32
  }

  /** One step of ComputeNameHashB: XOR the whole code unit, times 0x1000193. */
  function StepB(h: bv32, c: bv16): bv32
  {
    (h ^ c as bv32) * 0x100_0193
  }

  /** ComputeNameHashA: djb2 from 5381 over the code units truncated to bytes. */
  function HashA(p: Text): bv32
  {
    if |p| == 0 then 5381 else StepA(HashA(p[..|p| - 1]), LowByte(p[|p| - 1]))
  }

  /** ComputeNameHashB: from 0x5BB2220E, one StepB per code unit. */
  function HashB(p: Text): bv32
  {
    if |p| == 0 then 0x5BB2_220E else StepB(HashB(p[..|p| - 1]), p[|p| - 1])
  }

  /** Two strings that agree in the low byte of every code unit have the same hash A. */
  lemma {:induction false} HashALowBytes(p: Text, q: Text)
    requires |p| == |q| && forall i :: 0 <= i < |p| ==> LowByte(p[i]) == LowByte(q[i])
    ensures HashA(p) == HashA(q)
    decreases |p|
  {
    if |p| > 0 {
      var n := |p| - 1;
      HashALowBytes(p[..n], q[..n]);
    }
  }

  /** Hash B tells apart strings that differ only in their last code unit. */
  lemma HashBLastUnit(p: Text, c: bv16, d: bv16)
    requires HashB(p + [c]) == HashB(p + [d])
    ensures c == d
  {
    assert (p + [c])[..|p|] == p && (p + [d])[..|p|] == p;
    StepBInjective(HashB(p), c, d);
  }

  /** 0x1000193 is odd, so multiplying by it loses nothing. */
  lemma StepBInjective(h: bv32, c: bv16, d: bv16)
    requires StepB(h, c) == StepB(h, d)
    ensures c == d
  {
    XorMulInjective(h, c, d);
  }

  lemma XorMulInjective(h: bv32, c: bv16, d: bv16)
    requires (h ^ c as bv32) * 0x100_0193 == (h ^ d as bv32) * 0x100_0193
    ensures c == d
  {
  }

  /** ComputeNameHash: both hashes of the lower-cased path; a null path is ArgumentNull. */
  function ComputeNameHash(path: Option<Text>): (r: Result<bv64>)
    ensures path.None? <==> r == Err(ArgumentNull)
    ensures path.Some? ==>
      (r.Ok? && r.value & 0xFFFF_FFFF == HashA(Lower(path.value)) as bv64
       && r.value >> 32 == HashB(Lower(path.value)) as bv64)
  {
    match path
    case None => Err(ArgumentNull)
    case Some(p) =>
      var lower := Lower(p);
      Ok(Combine(HashA(lower), HashB(lower)))
  }

  /** The name hash does not see letter case. */
  lemma NameHashIgnoresCase(p: Text)
    ensures ComputeNameHash(Some(p)) == ComputeNameHash(Some(Lower(p)))
  {
    LowerIdempotent(p);
  }

  /** An entry is found by a path exactly when its two stored hashes are the path's. */
  lemma EntryMatchesPath(e: Entry, p: Text)
    ensures e.CombinedNameHash() == ComputeNameHash(Some(p)).value <==>
      e.nameHashA == HashA(Lower(p)) && e.nameHashB == HashB(Lower(p))
  {
    var lower := Lower(p);
    CombineInjective(e.nameHashA, e.nameHashB, HashA(lower), HashB(lower));
  }

  // ---------------------------------------------------------------------------
  // Entry checksum

  const CHECKSUM_SEED: u32 := 0xABAB_EB98
  const BLOCK_SIZE: nat := 512

  /**
   * One checksum step, `(hash >> 1) + word + (hash << 31)` on 32-bit words: the hash
   * rotated right by one bit, plus the word, modulo 2^32.
   */
  function Mix(h: u32, w: u32): u32
  {
    (h / 2 + (h % 2) * 0x8000_0000 + w) % TWO_32
  }

  /** Mix is ArchiveFile's shifts and wrapping additions. */
  lemma MixShifts(h: u32, w: u32)
    ensures Mix(h, w) == Add(Add(Shr(h, 1), w), Shl(h, 31))
  {
    ShrOne(h);
    ShlThirtyOne(h);
    ModOfSum(h / 2 + w, (h % 2) * 0x8000_0000);
  }

  lemma ShrOne(h: u32)
    ensures Shr(h, 1) == h / 2
  {
    ShrValue(h, 1);
  }

  /** Only the lowest bit survives a shift left by 31. */
  lemma ShlThirtyOne(h: u32)
    ensures Shl(h, 31) == (h % 2) * 0x8000_0000
  {
    ShlValue(h, 31);
    Pow2ThirtyOne();
    assert h * 0x8000_0000 == (h % 2) * 0x8000_0000 + (h / 2) * TWO_32;
    ModAddMultiple((h % 2) * 0x8000_0000, h / 2);
  }

  /** Reducing the first summand first does not change the sum modulo 2^32. */
  lemma ModOfSum(a: nat, b: nat)
    requires a < 2 * TWO_32
    ensures (a % TWO_32 + b) % TWO_32 == (a + b) % TWO_32
  {
    if a >= TWO_32 {
      ModAddMultiple(a - TWO_32 + b, 1);
    }
  }

  lemma Pow2ThirtyOne()
    ensures Pow2(31) == 0x8000_0000
  {
    Pow2ThirtyTwo();
  }

  /** BitConverter.ToUInt32 on four bytes (on a little-endian machine). */
  function ToUInt32(b0: bv8, b1: bv8, b2: bv8, b3: bv8): u32
  {
    b0 as int + 0x100 * (b1 as int + 0x100 * (b2 as int + 0x100 * b3 as int))
  }

  /** The word at byte i of a block. */
  function WordAt(b: Bytes, i: nat): u32
    requires i + 4 <= |b|
  {
    ToUInt32(b[i], b[i + 1], b[i + 2], b[i + 3])
  }

  /** The first n words of a block mixed into h, in order. */
  function HashWords(h: u32, block: Bytes, n: nat): u32
    requires 4 * n <= |block|
  {
    if n == 0 then h else Mix(HashWords(h, block, n - 1), WordAt(block, 4 * (n - 1)))
  }

  /**
   * The checksum of `data` taken in 512-byte blocks through one reused buffer that
   * currently holds `block`. Every block hashes a whole number of words, so the 1-3
   * bytes after a short last block come from whatever the buffer held before.
   */
  function Checksum(h: u32, data: Bytes, block: Bytes): u32
    requires |block| == BLOCK_SIZE
    decreases |data|
  {
    if |data| == 0 then h
    else
      var n := Min(BLOCK_SIZE, |data|);
      var next := data[..n] + block[n..];
      Checksum(HashWords(h, next, Run(n)), data[n..], next)
  }

  /**
   * ComputeChecksum with its argument errors: a null array is ArgumentNull, and the
   * first block copy fails on a negative offset (ArgumentOutOfRange) or on a range
   * running past the end of the array (Argument). A count of zero or less hashes nothing.
   */
  function ChecksumOf(bytes: Option<Bytes>, offset: int, count: int, seed: u32): (r: Result<u32>)
    ensures bytes.None? ==> r == Err(ArgumentNull)
    ensures bytes.Some? && count > 0 && 0 <= offset && offset + count <= |bytes.value| <==> r.Ok? && count > 0
    ensures bytes.Some? && count <= 0 ==> r == Ok(seed)
  {
    if bytes.None? then Err(ArgumentNull)
    else if count <= 0 then Ok(seed)
    else if offset < 0 then Err(ArgumentOutOfRange)
    else if offset + count > |bytes.value| then Err(Argument)
    else Ok(Checksum(seed, bytes.value[offset..offset + count], Zeros(BLOCK_SIZE)))
  }

  /** Data that fits one block is hashed as if padded with zeros to a whole word. */
  lemma ChecksumOneBlock(h: u32, data: Bytes)
    requires 0 < |data| <= BLOCK_SIZE
    ensures Checksum(h, data, Zeros(BLOCK_SIZE)) ==
      HashWords(h, data + Zeros(BLOCK_SIZE - |data|), Run(|data|))
  {
    var n := |data|;
    assert data[..n] + Zeros(BLOCK_SIZE)[n..] == data + Zeros(BLOCK_SIZE - n);
    assert data[n..] == [];
  }

  /**
   * The bleed: in a second, short block the bytes after the data are the first
   * block's bytes at the same positions, not zeros.
   */
  lemma ChecksumBleed(h: u32, data: Bytes)
    requires BLOCK_SIZE < |data| < 2 * BLOCK_SIZE
    ensures var n := |data| - BLOCK_SIZE;
      Checksum(h, data, Zeros(BLOCK_SIZE)) ==
      HashWords(HashWords(h, data[..BLOCK_SIZE], BLOCK_SIZE / 4),
                data[BLOCK_SIZE..] + data[n..BLOCK_SIZE], Run(n))
  {
    var n := |data| - BLOCK_SIZE;
    var first := data[..BLOCK_SIZE] + Zeros(BLOCK_SIZE)[BLOCK_SIZE..];
    assert first == data[..BLOCK_SIZE];
    var h1 := HashWords(h, first, BLOCK_SIZE / 4);
    var rest := data[BLOCK_SIZE..];
    assert Checksum(h, data, Zeros(BLOCK_SIZE)) == Checksum(h1, rest, first);
    var second := rest[..n] + first[n..];
    assert second == data[BLOCK_SIZE..] + data[n..BLOCK_SIZE];
    assert rest[n..] == [];
    assert Checksum(h1, rest, first) == Checksum(HashWords(h1, second, Run(n)), [], second);
  }


  /** Array.Copy(src, offset, dst, 0, n): the first n bytes of dst are replaced. */
  method CopyBlock(src: array<bv8>, offset: nat, dst: array<bv8>, n: nat)
    requires offset + n <= src.Length && n <= dst.Length && src != dst
    modifies dst
    ensures dst[..] == src[offset..offset + n] + old(dst[n..])
  {
    var k := 0;
    while k < n
      invariant 0 <= k <= n
      invariant forall i :: 0 <= i < k ==> dst[i] == src[offset + i]
      invariant forall i :: k <= i < dst.Length ==> dst[i] == old(dst[i])
    {
      dst[k] := src[offset + k];
      k := k + 1;
    }
    assert dst[..] == src[offset..offset + n] + old(dst[n..]);
  }

  /** The inner loop of ComputeChecksum: mix the first `run` words of the buffer into h. */
  method HashBlock(block: array<bv8>, run: nat, h: u32) returns (r: u32)
    requires 4 * run <= block.Length
    ensures r == HashWords(h, block[..], run)
  {
    r := h;
    var i, j := 0, 0;
    while j < run
      invariant 0 <= j <= run && i == 4 * j
      invariant r == HashWords(h, block[..], j)
    {
      var w := ToUInt32(block[i], block[i + 1], block[i + 2], block[i + 3]);
      assert w == WordAt(block[..], 4 * j);
      r := Mix(r, w);
      i, j := i + 4, j + 1;
    }
  }

  /** One pass of the outer loop of ComputeChecksum: copy a block in, mix its words. */
  method HashNextBlock(bytes: array<bv8>, off: nat, n: nat, block: array<bv8>, h: u32) returns (r: u32)
    requires off + n <= bytes.Length && n <= block.Length == BLOCK_SIZE && block != bytes
    modifies block
    ensures block[..] == bytes[off..off + n] + old(block[n..])
    ensures r == HashWords(h, block[..], Run(n))
  {
    CopyBlock(bytes, off, block, n);
    var run := (n + 3) / 4;
    r := HashBlock(block, run, h);
  }

  /** The first block of `data` goes through the buffer as Checksum says. */
  lemma ChecksumStep(h: u32, data: Bytes, block: Bytes, head: Bytes)
    requires |block| == BLOCK_SIZE && 0 < |data| && head == data[..Min(BLOCK_SIZE, |data|)]
    ensures var next := head + block[|head|..];
      Checksum(h, data, block) == Checksum(HashWords(h, next, Run(|head|)), data[|head|..], next)
  {
  }

  /**
   * The outer loop of ComputeChecksum as written: block after block through the
   * reused buffer, stopping at the first block copy that fails.
   */
  function BlockLoop(bytes: Bytes, off: int, cnt: int, h: u32, block: Bytes): Result<u32>
    requires |block| == BLOCK_SIZE
    decreases cnt
  {
    if cnt <= 0 then Ok(h)
    else
      var n := Min(BLOCK_SIZE, cnt);
      if off < 0 then Err(ArgumentOutOfRange)
      else if off + n > |bytes| then Err(Argument)
      else
        var next := bytes[off..off + n] + block[n..];
        BlockLoop(bytes, off + n, cnt - n, HashWords(h, next, Run(n)), next)
  }

  /** One pass of BlockLoop over a block that can be copied. */
  lemma BlockLoopStep(bytes: Bytes, off: int, cnt: int, h: u32, block: Bytes, n: nat, next: Bytes, h': u32)
    requires |block| == BLOCK_SIZE && cnt > 0 && n == Min(BLOCK_SIZE, cnt)
    requires 0 <= off && off + n <= |bytes|
    requires next == bytes[off..off + n] + block[n..] && h' == HashWords(h, next, Run(n))
    ensures BlockLoop(bytes, off, cnt, h, block) == BlockLoop(bytes, off + n, cnt - n, h', next)
  {
  }

  /** The loop fails exactly on a bad range, and otherwise computes Checksum over the range. */
  lemma BlockLoopChecksum(bytes: Bytes, off: int, cnt: int, h: u32, block: Bytes)
    requires |block| == BLOCK_SIZE
    ensures BlockLoop(bytes, off, cnt, h, block) ==
      if cnt <= 0 then Ok(h)
      else if off < 0 then Err(ArgumentOutOfRange)
      else if off + cnt > |bytes| then Err(Argument)
      else Ok(Checksum(h, bytes[off..off + cnt], block))
  {
    if cnt > 0 && off >= 0 {
      if off + cnt > |bytes| {
        BlockLoopPastEnd(bytes, off, cnt, h, block);
      } else {
        BlockLoopInRange(bytes, off, cnt, h, block);
      }
    }
  }

  /** A range running past the end fails with Argument, at the first block that does. */
  lemma {:induction false} BlockLoopPastEnd(bytes: Bytes, off: nat, cnt: int, h: u32, block: Bytes)
    requires |block| == BLOCK_SIZE && cnt > 0 && off + cnt > |bytes|
    ensures BlockLoop(bytes, off, cnt, h, block) == Err(Argument)
    decreases cnt
  {
    var n := Min(BLOCK_SIZE, cnt);
    if off + n <= |bytes| {
      var next := bytes[off..off + n] + block[n..];
      var h' := HashWords(h, next, Run(n));
      BlockLoopStep(bytes, off, cnt, h, block, n, next, h');
      BlockLoopPastEnd(bytes, off + n, cnt - n, h', next);
    }
  }

  /** A range inside the array is hashed as Checksum says. */
  lemma {:induction false} BlockLoopInRange(bytes: Bytes, off: nat, cnt: int, h: u32, block: Bytes)
    requires |block| == BLOCK_SIZE && cnt > 0 && off + cnt <= |bytes|
    ensures BlockLoop(bytes, off, cnt, h, block) == Ok(Checksum(h, bytes[off..off + cnt], block))
    decreases cnt
  {
    var n := Min(BLOCK_SIZE, cnt);
    var next := bytes[off..off + n] + block[n..];
    var h' := HashWords(h, next, Run(n));
    BlockLoopStep(bytes, off, cnt, h, block, n, next, h');
    ChecksumAdvance(bytes, off, cnt, h, block, n, next, h');
    if cnt > n {
      BlockLoopInRange(bytes, off + n, cnt - n, h', next);
      assert (off + n) + (cnt - n) == off + cnt;
    }
  }

  /** Checksum over a range is Checksum over the range after its first block. */
  lemma ChecksumAdvance(bytes: Bytes, off: nat, cnt: int, h: u32, block: Bytes, n: nat, next: Bytes, h': u32)
    requires |block| == BLOCK_SIZE && cnt > 0 && n == Min(BLOCK_SIZE, cnt) && off + cnt <= |bytes|
    requires next == bytes[off..off + n] + block[n..] && h' == HashWords(h, next, Run(n))
    ensures cnt == n ==> Checksum(h, bytes[off..off + cnt], block) == h'
    ensures cnt > n ==> Checksum(h, bytes[off..off + cnt], block) == Checksum(h', bytes[off + n..off + cnt], next)
  {
    var data := bytes[off..off + cnt];
    ChecksumStep(h, data, block, bytes[off..off + n]);
    assert data[n..] == bytes[off + n..off + cnt];
  }

  /** ComputeChecksum(bytes, offset, count, seed). */
  method ComputeChecksum(bytes: array?<bv8>, offset: int, count: int, seed: u32) returns (r: Result<u32>)
    ensures r == ChecksumOf(if bytes == null then None else Some(bytes[..]), offset, count, seed)
  {
    if bytes == null {
      return Err(ArgumentNull);
    }
    var hash := seed;
    var block := new bv8[BLOCK_SIZE](_ => 0);
    assert block[..] == Zeros(BLOCK_SIZE);
    BlockLoopChecksum(bytes[..], offset, count, seed, block[..]);
    ghost var result := BlockLoop(bytes[..], offset, count, seed, block[..]);
    var off, cnt := offset, count;
    while cnt > 0
      invariant block.Length == BLOCK_SIZE && block != bytes
      invariant BlockLoop(bytes[..], off, cnt, hash, block[..]) == result
      decreases cnt
    {
      var blockLength := Min(BLOCK_SIZE, cnt);
      if off < 0 {
        return Err(ArgumentOutOfRange);
      }
      if off + blockLength > bytes.Length {
        return Err(Argument);
      }
      ghost var before := block[..];
      var hash' := HashNextBlock(bytes, off, blockLength, block, hash);
      BlockLoopStep(bytes[..], off, cnt, hash, before, blockLength, block[..], hash');
      hash := hash';
      off, cnt := off + blockLength, cnt - blockLength;
    }
    return Ok(hash);
  }

  /** ComputeChecksum(bytes, offset, count): the same with the default seed 0xABABEB98. */
  method ComputeDefaultChecksum(bytes: array?<bv8>, offset: int, count: int) returns (r: Result<u32>)
    ensures r == ChecksumOf(if bytes == null then None else Some(bytes[..]), offset, count, CHECKSUM_SEED)
  {
    r := ComputeChecksum(bytes, offset, count, CHECKSUM_SEED);
  }
}
