module RebirthEntry {
  import opened Wrappers
  import opened ByteIO
  import opened Arith
  import opened Bogocrypt
  import opened RebirthArchive
  import Isaac

  // ---------------------------------------------------------------------------
  // GetISAAC: the ISAAC seed of an entry, from a PCG32 generator

  const PCG_MULTIPLIER: bv64 := 6364136223846793005
  const PCG_INCREMENT: bv64 := 127

  /** The low half of the starting state: a shift/XOR mix of hash B, computed on 64 bits and truncated. */
  function PcgLow(b: bv32): bv32
  {
    var x := b as bv64;
    ((x ^ ((x ^ (x << 15)) << 8) ^ (x >> 9)) & 0xFFFF_FFFF) as bv32
  }

  /** The starting state: hash B in the high half, PcgLow of it in the low half. */
  function PcgStart(b: bv32): (s: bv64)
  {
    Combine(PcgLow(b), b)
  }

  /** The state update, modulo 2^64. */
  function PcgStep(s: bv64): bv64
  {
    s * PCG_MULTIPLIER + PCG_INCREMENT
  }

  /** The rotation amount: the top five bits of the state. */
  function PcgShift(s: bv64): (r: bv32)
    ensures r < 32
  {
    (s >> 59) as bv32
  }

  /** The low 32 bits of `(s >> 27) ^ (s >> 45)`. */
  function PcgPart(s: bv64): bv32
  {
    (((s >> 27) ^ (s >> 45)) & 0xFFFF_FFFF) as bv32
  }

  /** The output word as ArchiveEntry computes it: `(part >> shift) | (part << (-shift & 31))`. */
  function PcgOutput(s: bv64): bv32
  {
    var part, shift := PcgPart(s), PcgShift(s);
    (part >> shift) | (part << ((0 - shift) & 31))
  }

  /** The state after n steps from the start derived from hash B. */
  function PcgState(b: bv32, n: nat): bv64
  {
    KeyAt(PcgStep, PcgStart(b), n)
  }

  /** GetISAAC's 256 seed words for hash B, as the 32-bit patterns of C# `int` array. */
  function IsaacSeed(b: bv32): (w: seq<u32>)
    ensures |w| == Isaac.SIZE
  {
    seq(Isaac.SIZE, i requires 0 <= i < Isaac.SIZE => PcgOutput(PcgState(b, i)) as int)
  }

  /** The loop of GetISAAC: 256 output words of successive PCG states. */
  method SeedWords(b: bv32) returns (data: array<u32>)
    ensures fresh(data) && data[..] == IsaacSeed(b)
  {
    var seed := PcgStart(b);
    data := new u32[Isaac.SIZE];
    for i := 0 to Isaac.SIZE
      invariant seed == PcgState(b, i)
      invariant forall k :: 0 <= k < i ==> data[k] == IsaacSeed(b)[k]
    {
      data[i] := PcgOutput(seed) as int;
      seed := PcgStep(seed);
    }
    assert data[..] == IsaacSeed(b);
  }

  /**
   * `keys` is where a generator seeded with the PCG words of hash B starts: one
   * batch after priming with them. The quantifier keeps the generator's
   * definition out of sight until the seed words of hash B are named.
   */
  ghost predicate IsaacOf(b: bv32, keys: Isaac.Reader)
  {
    forall x | x == b :: keys == Isaac.Next(Isaac.Primed(IsaacSeed(x)))
  }

  /** There is one such starting point per hash. */
  lemma IsaacOfUnique(b: bv32, keys: Isaac.Reader, other: Isaac.Reader)
    requires IsaacOf(b, keys) && IsaacOf(b, other)
    ensures keys == other
  {
    assert keys == Isaac.Next(Isaac.Primed(IsaacSeed(b)));
  }

  /** The starting point for hash B. */
  lemma IsaacStart(b: bv32) returns (keys: Isaac.Reader)
    ensures keys.Ready() && IsaacOf(b, keys)
  {
    keys := Isaac.Next(Isaac.Primed(IsaacSeed(b)));
  }

  /** Where the generator of hash B starts, as IsaacOf describes it. */
  ghost function EntryKeys(b: bv32): (keys: Isaac.Reader)
    ensures keys.Ready() && IsaacOf(b, keys)
  {
    assert exists k: Isaac.Reader :: k.Ready() && IsaacOf(b, k) by {
      var k := IsaacStart(b);
    }
    var k: Isaac.Reader :| k.Ready() && IsaacOf(b, k);
    k
  }

  /** GetISAAC: a generator seeded with the 256 PCG words of hash B. */
  method GetIsaac(e: Entry) returns (g: Isaac.Isaac)
    ensures fresh(g) && fresh(g.state) && fresh(g.results) && g.Valid()
    ensures IsaacOf(e.nameHashB, g.ReaderOf())
  {
    var data := SeedWords(e.nameHashB);
    g := new Isaac.Isaac.Seeded(data[..]);
    Isaac.SeedBufferFull(data[..]);
    Isaac.PrimedNext(g.Core(), g.c, g.buffer);
  }

  // ---------------------------------------------------------------------------
  // Reading from the entry's stream

  /**
   * `input.Read(buffer, 0, n)` on a stream holding `input` at position `pos`: it
   * copies what is available, at most n bytes, to the start of the buffer.
   */
  method ReadInto(input: Bytes, pos: nat, buffer: array<bv8>, n: nat) returns (got: nat)
    requires pos <= |input| && n <= buffer.Length
    modifies buffer
    ensures got == Min(n, |input| - pos)
    ensures buffer[..] == input[pos..pos + got] + old(buffer[got..])
  {
    got := Min(n, |input| - pos);
    var k := 0;
    while k < got
      invariant 0 <= k <= got
      invariant forall i :: 0 <= i < k ==> buffer[i] == input[pos + i]
      invariant forall i :: k <= i < buffer.Length ==> buffer[i] == old(buffer[i])
    {
      buffer[k] := input[pos + k];
      k := k + 1;
    }
    assert buffer[..] == input[pos..pos + got] + old(buffer[got..]);
  }

  // ---------------------------------------------------------------------------
  // Bogocrypt1 entries

  const BLOCK: nat := 1024
  const BLOCK_GROUPS: nat := 256

  /**
   * The words in the next block of at most `size` words: the block asks for
   * `(remaining + 3) & ~3` bytes, the remaining count rounded up to whole words,
   * but at most `4 * size` (1024 in the Bogocrypt1 branch).
   */
  function BlockWords(size: nat, remaining: int): (g: nat)
    requires size > 0 && remaining > 0
    ensures 0 < g <= size
    ensures remaining <= 4 * size ==> remaining <= 4 * g < remaining + 4
    ensures remaining > 4 * size ==> g == size
  {
    Min(size, Run(remaining))
  }

  /** `dec(d, k, g)` deciphers the g words of d under key k into as many bytes. */
  ghost predicate Keeps<K(!new)>(dec: (Bytes, K, nat) -> Bytes)
  {
    forall d: Bytes, k: K, g: nat | |d| == 4 * g :: |dec(d, k, g)| == |d|
  }

  /** Two runs of words deciphered one after the other, the key advanced by `adv` in between, are one run. */
  ghost predicate SplitAt<K>(dec: (Bytes, K, nat) -> Bytes, adv: (K, nat) -> K, a: Bytes, b: Bytes, k: K, ga: nat, gb: nat)
  {
    |a| == 4 * ga && |b| == 4 * gb ==> dec(a + b, k, ga + gb) == dec(a, k, ga) + dec(b, adv(k, ga), gb)
  }

  /** `dec` works word by word: SplitAt holds everywhere. */
  ghost predicate Splits<K(!new)>(dec: (Bytes, K, nat) -> Bytes, adv: (K, nat) -> K)
  {
    forall a: Bytes, b: Bytes, k: K, ga: nat, gb: nat :: SplitAt(dec, adv, a, b, k, ga, gb)
  }

  /**
   * The Bogocrypt1 branch, for any decipherer `dec` with key advance `adv` and blocks
   * of `size` words: from `remaining` bytes still to produce, the key, the reused block
   * buffer and the output so far. While more than a block remains, each pass reads a
   * whole block — a shorter read fails — and keeps all of it, so the buffer's old
   * contents play no part. The final pass asks for the remaining bytes rounded up to
   * whole words and fails only when fewer than the remaining bytes arrive; the words
   * the input no longer holds come from the buffer as the previous pass left it, and
   * are deciphered with the rest.
   */
  function Blockwise<K(!new)>(dec: (Bytes, K, nat) -> Bytes, adv: (K, nat) -> K, size: nat,
                              input: Bytes, pos: nat, remaining: int, key: K, block: Bytes, output: Bytes)
    : (r: Result<(Bytes, nat)>)
    requires Keeps(dec) && size > 0 && pos <= |input| && |block| == 4 * size
    decreases remaining
  {
    if remaining <= 0 then Ok((output, pos))
    else if remaining > 4 * size then
      if |input| - pos < 4 * size then Err(EndOfStream)
      else
        var head := dec(input[pos..pos + 4 * size], key, size);
        Blockwise(dec, adv, size, input, pos + 4 * size, remaining - 4 * size, adv(key, size), head, output + head)
    else
      var groups := Run(remaining);
      var got := Min(4 * groups, |input| - pos);
      if got < remaining then Err(EndOfStream)
      else Ok((output + dec(input[pos..pos + got] + block[got..4 * groups], key, groups)[..remaining], pos + got))
  }

  /** Blockwise succeeds exactly when every remaining byte is in the input. */
  lemma {:induction false} BlockwiseOk<K(!new)>(dec: (Bytes, K, nat) -> Bytes, adv: (K, nat) -> K, size: nat,
                                                input: Bytes, pos: nat, remaining: int, key: K, block: Bytes, output: Bytes)
    requires Keeps(dec) && size > 0 && pos <= |input| && |block| == 4 * size
    ensures Blockwise(dec, adv, size, input, pos, remaining, key, block, output).Ok? <==> remaining <= 0 || pos + remaining <= |input|
    decreases remaining
  {
    if remaining > 4 * size && |input| - pos >= 4 * size {
      var head := dec(input[pos..pos + 4 * size], key, size);
      BlockwiseOk(dec, adv, size, input, pos + 4 * size, remaining - 4 * size, adv(key, size), head, output + head);
    }
  }

  /** Blockwise produces exactly the `remaining` bytes it was asked for. */
  lemma {:induction false} BlockwiseLength<K(!new)>(dec: (Bytes, K, nat) -> Bytes, adv: (K, nat) -> K, size: nat,
                                                    input: Bytes, pos: nat, remaining: int, key: K, block: Bytes, output: Bytes)
    requires Keeps(dec) && size > 0 && pos <= |input| && |block| == 4 * size
    ensures var r := Blockwise(dec, adv, size, input, pos, remaining, key, block, output);
      r.Ok? ==> |r.value.0| == |output| + (if remaining > 0 then remaining else 0)
    decreases remaining
  {
    if remaining > 4 * size && |input| - pos >= 4 * size {
      var head := dec(input[pos..pos + 4 * size], key, size);
      BlockwiseLength(dec, adv, size, input, pos + 4 * size, remaining - 4 * size, adv(key, size), head, output + head);
    }
  }

  /**
   * One pass of the read loop as ArchiveEntry.Read performs it — ask for BlockWords words, fail
   * on fewer than `Min(4 * size, remaining)` bytes, decipher the words in the buffer,
   * keep the real bytes — agrees with Blockwise. The pass's results are named.
   */
  lemma BlockwiseStep<K(!new)>(dec: (Bytes, K, nat) -> Bytes, adv: (K, nat) -> K, size: nat,
                               input: Bytes, pos: nat, remaining: int, key: K, block: Bytes, output: Bytes,
                               got: nat, groups: nat, filled: Bytes, ciphered: Bytes, pos': nat, remaining': int, key': K, output': Bytes)
    requires Keeps(dec) && size > 0 && pos <= |input| && |block| == 4 * size && remaining > 0 && groups == BlockWords(size, remaining)
    requires got == Min(4 * groups, |input| - pos)
    requires filled == input[pos..pos + got] + block[got..]
    requires ciphered == dec(filled[..4 * groups], key, groups) + filled[4 * groups..]
    requires pos' == pos + got && remaining' == remaining - 4 * groups
    requires key' == adv(key, groups) && output' == output + ciphered[..Min(4 * size, remaining)]
    ensures got < Min(4 * size, remaining) ==> Blockwise(dec, adv, size, input, pos, remaining, key, block, output) == Err(EndOfStream)
    ensures got >= Min(4 * size, remaining) ==>
      Blockwise(dec, adv, size, input, pos, remaining, key, block, output)
      == Blockwise(dec, adv, size, input, pos', remaining', key', ciphered, output')
  {
    if got >= Min(4 * size, remaining) {
      if remaining > 4 * size {
        BlockwiseStepFull(dec, adv, size, input, pos, remaining, key, block, output, got, filled, ciphered);
      } else {
        BlockwiseStepLast(dec, adv, size, input, pos, remaining, key, block, output, got, groups, filled, ciphered);
      }
    }
  }

  /** A pass over a full block: the whole block is read and kept, whatever the buffer held. */
  lemma BlockwiseStepFull<K(!new)>(dec: (Bytes, K, nat) -> Bytes, adv: (K, nat) -> K, size: nat,
                                   input: Bytes, pos: nat, remaining: int, key: K, block: Bytes, output: Bytes,
                                   got: nat, filled: Bytes, ciphered: Bytes)
    requires Keeps(dec) && size > 0 && pos <= |input| && |block| == 4 * size && remaining > 4 * size
    requires got == Min(4 * size, |input| - pos) && got >= 4 * size
    requires filled == input[pos..pos + got] + block[got..]
    requires ciphered == dec(filled[..4 * size], key, size) + filled[4 * size..]
    ensures ciphered == dec(input[pos..pos + 4 * size], key, size)
    ensures Blockwise(dec, adv, size, input, pos, remaining, key, block, output)
         == Blockwise(dec, adv, size, input, pos + got, remaining - 4 * size, adv(key, size), ciphered, output + ciphered[..4 * size])
  {
    assert filled == input[pos..pos + 4 * size];
  }

  /** The final pass: the words the input no longer holds come from the buffer. */
  lemma BlockwiseStepLast<K(!new)>(dec: (Bytes, K, nat) -> Bytes, adv: (K, nat) -> K, size: nat,
                                   input: Bytes, pos: nat, remaining: int, key: K, block: Bytes, output: Bytes,
                                   got: nat, groups: nat, filled: Bytes, ciphered: Bytes)
    requires Keeps(dec) && size > 0 && pos <= |input| && |block| == 4 * size && 0 < remaining <= 4 * size
    requires groups == Run(remaining) && got == Min(4 * groups, |input| - pos) && got >= remaining
    requires filled == input[pos..pos + got] + block[got..]
    requires ciphered == dec(filled[..4 * groups], key, groups) + filled[4 * groups..]
    ensures Blockwise(dec, adv, size, input, pos, remaining, key, block, output)
         == Ok((output + ciphered[..remaining], pos + got))
  {
    assert filled[..4 * groups] == input[pos..pos + got] + block[got..4 * groups];
    assert ciphered[..remaining] == dec(filled[..4 * groups], key, groups)[..remaining];
  }

  /**
   * With the padding present — the `n` words that cover `remaining` bytes are all in the
   * input — Blockwise never fails and stale block contents never reach the output: the
   * output is the padded bytes deciphered as one run of words, cut to `remaining`.
   */
  lemma {:induction false} BlockwisePadded<K(!new)>(dec: (Bytes, K, nat) -> Bytes, adv: (K, nat) -> K, size: nat,
                                                    input: Bytes, pos: nat, remaining: nat, n: nat, key: K, block: Bytes, output: Bytes)
    requires Keeps(dec) && Splits(dec, adv) && size > 0 && |block| == 4 * size
    requires remaining <= 4 * n < remaining + 4 && pos + 4 * n <= |input|
    ensures Blockwise(dec, adv, size, input, pos, remaining, key, block, output)
         == Ok((output + dec(input[pos..pos + 4 * n], key, n)[..remaining], pos + 4 * n))
    decreases remaining
  {
    if remaining == 0 {
      assert output + dec(input[pos..pos], key, 0)[..0] == output;
    } else if remaining <= 4 * size {
      BlockwisePaddedLast(dec, adv, size, input, pos, remaining, n, key, block, output);
    } else {
      var head := dec(input[pos..pos + 4 * size], key, size);
      BlockwisePadded(dec, adv, size, input, pos + 4 * size, remaining - 4 * size, n - size, adv(key, size), head, output + head);
      BlockwisePaddedMore(dec, adv, size, input, pos, remaining, n, key, block, output);
    }
  }

  /** The final block of BlockwisePadded: its padding is present, so the buffer is not read. */
  lemma BlockwisePaddedLast<K(!new)>(dec: (Bytes, K, nat) -> Bytes, adv: (K, nat) -> K, size: nat,
                                     input: Bytes, pos: nat, remaining: nat, n: nat, key: K, block: Bytes, output: Bytes)
    requires Keeps(dec) && size > 0 && |block| == 4 * size
    requires 0 < remaining <= 4 * size && remaining <= 4 * n < remaining + 4 && pos + 4 * n <= |input|
    ensures Blockwise(dec, adv, size, input, pos, remaining, key, block, output)
         == Ok((output + dec(input[pos..pos + 4 * n], key, n)[..remaining], pos + 4 * n))
  {
    assert Run(remaining) == n;
    assert input[pos..pos + 4 * n] + block[4 * n..4 * n] == input[pos..pos + 4 * n];
  }

  /** The inductive step of BlockwisePadded: one full block, the statement for the rest assumed. */
  lemma BlockwisePaddedMore<K(!new)>(dec: (Bytes, K, nat) -> Bytes, adv: (K, nat) -> K, size: nat,
                                     input: Bytes, pos: nat, remaining: nat, n: nat, key: K, block: Bytes, output: Bytes)
    requires Keeps(dec) && Splits(dec, adv) && size > 0 && |block| == 4 * size
    requires 4 * size < remaining <= 4 * n < remaining + 4 && pos + 4 * n <= |input|
    requires var head := dec(input[pos..pos + 4 * size], key, size);
      Blockwise(dec, adv, size, input, pos + 4 * size, remaining - 4 * size, adv(key, size), head, output + head)
      == Ok((output + head + dec(input[pos + 4 * size..pos + 4 * n], adv(key, size), n - size)[..remaining - 4 * size], pos + 4 * n))
    ensures Blockwise(dec, adv, size, input, pos, remaining, key, block, output)
         == Ok((output + dec(input[pos..pos + 4 * n], key, n)[..remaining], pos + 4 * n))
  {
    var head := dec(input[pos..pos + 4 * size], key, size);
    var tail := dec(input[pos + 4 * size..pos + 4 * n], adv(key, size), n - size);
    Adjacent(input, pos, pos + 4 * size, pos + 4 * n);
    assert SplitAt(dec, adv, input[pos..pos + 4 * size], input[pos + 4 * size..pos + 4 * n], key, size, n - size);
    assert dec(input[pos..pos + 4 * n], key, n) == head + tail;
    assert output + head + tail[..remaining - 4 * size] == output + (head + tail)[..remaining];
  }

  /** Two adjacent slices make up the slice that spans both. */
  lemma Adjacent<T>(s: seq<T>, i: nat, j: nat, k: nat)
    requires i <= j <= k <= |s|
    ensures s[i..k] == s[i..j] + s[j..k]
  {
  }

  /** Bogo1 as a block decipherer; a byte string that is not `g` words is left as it is (never the case here). */
  function Bogo1Dec(d: Bytes, k: bv32, g: nat): Bytes
  {
    if |d| == 4 * g then Bogo1(d, k, g) else d
  }

  /** The Bogocrypt1 key after g words. */
  function Bogo1Adv(k: bv32, g: nat): bv32
  {
    KeyAt(NextKey, k, g)
  }

  /** Bogo1Dec keeps lengths and works word by word with Bogo1Adv. */
  lemma Bogo1DecWords()
    ensures Keeps(Bogo1Dec) && Splits(Bogo1Dec, Bogo1Adv)
  {
    forall a: Bytes, b: Bytes, k: bv32, ga: nat, gb: nat
      ensures SplitAt(Bogo1Dec, Bogo1Adv, a, b, k, ga, gb)
    {
      if |a| == 4 * ga && |b| == 4 * gb {
        Bogo1Split(a, b, k, ga, gb);
      }
    }
  }

  /** The Bogocrypt1 entry branch: Blockwise with Bogo1 on blocks of 256 words. */
  function Bogo1Blocks(input: Bytes, pos: nat, remaining: int, key: bv32, block: Bytes, output: Bytes): (r: Result<(Bytes, nat)>)
    requires pos <= |input| && |block| == BLOCK
  {
    Bogo1DecWords();
    Blockwise(Bogo1Dec, Bogo1Adv, BLOCK_GROUPS, input, pos, remaining, key, block, output)
  }

  /** A Bogocrypt1 entry decodes exactly when all of its `length` bytes are present in the input. */
  lemma Bogo1BlocksOk(input: Bytes, pos: nat, length: nat, key: bv32)
    requires pos <= |input|
    ensures Bogo1Blocks(input, pos, length, key, Zeros(BLOCK), []).Ok? <==> pos + length <= |input|
  {
    Bogo1DecWords();
    BlockwiseOk(Bogo1Dec, Bogo1Adv, BLOCK_GROUPS, input, pos, length, key, Zeros(BLOCK), []);
  }

  /** A Bogocrypt1 entry that decodes has exactly `length` bytes, padding in the stream or not. */
  lemma Bogo1BlocksLength(input: Bytes, pos: nat, length: nat, key: bv32)
    requires pos <= |input|
    ensures var r := Bogo1Blocks(input, pos, length, key, Zeros(BLOCK), []);
      r.Ok? ==> |r.value.0| == length
  {
    Bogo1DecWords();
    BlockwiseLength(Bogo1Dec, Bogo1Adv, BLOCK_GROUPS, input, pos, length, key, Zeros(BLOCK), []);
  }

  /**
   * With the padding to a multiple of four present, a Bogocrypt1 entry is the Bogo1
   * deciphering of its padded bytes, cut to `length`; the cursor ends past the padding.
   */
  lemma Bogo1BlocksValue(input: Bytes, pos: nat, length: nat, key: bv32)
    requires pos + 4 * Run(length) <= |input|
    ensures Bogo1Blocks(input, pos, length, key, Zeros(BLOCK), [])
         == Ok((Bogo1(input[pos..pos + 4 * Run(length)], key, Run(length))[..length], pos + 4 * Run(length)))
  {
    Bogo1DecWords();
    var n := Run(length);
    BlockwisePadded(Bogo1Dec, Bogo1Adv, BLOCK_GROUPS, input, pos, length, n, key, Zeros(BLOCK), []);
    assert Bogo1Dec(input[pos..pos + 4 * n], key, n) == Bogo1(input[pos..pos + 4 * n], key, n);
    assert [] + Bogo1(input[pos..pos + 4 * n], key, n)[..length] == Bogo1(input[pos..pos + 4 * n], key, n)[..length];
  }

  /** One pass of the Bogocrypt1 read loop agrees with Bogo1Blocks. */
  lemma Bogo1BlocksStep(input: Bytes, pos: nat, remaining: int, key: bv32, block: Bytes, output: Bytes,
                        got: nat, groups: nat, filled: Bytes, ciphered: Bytes, pos': nat, remaining': int, key': bv32, output': Bytes)
    requires pos <= |input| && |block| == BLOCK && remaining > 0 && groups == BlockWords(BLOCK_GROUPS, remaining)
    requires got == Min(4 * groups, |input| - pos)
    requires filled == input[pos..pos + got] + block[got..]
    requires ciphered == Bogo1(filled[..4 * groups], key, groups) + filled[4 * groups..]
    requires pos' == pos + got && remaining' == remaining - 4 * groups
    requires key' == KeyAt(NextKey, key, groups) && output' == output + ciphered[..Min(BLOCK, remaining)]
    ensures got < Min(BLOCK, remaining) ==> Bogo1Blocks(input, pos, remaining, key, block, output) == Err(EndOfStream)
    ensures got >= Min(BLOCK, remaining) ==>
      Bogo1Blocks(input, pos, remaining, key, block, output) == Bogo1Blocks(input, pos', remaining', key', ciphered, output')
  {
    Bogo1DecWords();
    assert Bogo1Dec(filled[..4 * groups], key, groups) == Bogo1(filled[..4 * groups], key, groups);
    BlockwiseStep(Bogo1Dec, Bogo1Adv, BLOCK_GROUPS, input, pos, remaining, key, block, output, got, groups, filled, ciphered, pos', remaining', key', output');
  }

  /** Bogocrypt1 over the first `groups` words of a block buffer. */
  method DecipherBlock(block: array<bv8>, groups: nat, key: bv32) returns (next: bv32)
    requires 4 * groups <= block.Length
    modifies block
    ensures block[..] == Bogo1(old(block[..4 * groups]), key, groups) + old(block[4 * groups..])
    ensures next == KeyAt(NextKey, key, groups)
  {
    var n := 4 * groups;
    assert Groups(n) == groups;
    next := Bogocrypt1(block, 0, n, key);
    assert block[..] == block[..n] + block[n..];
    assert block[n..] == old(block[n..]);
  }

  /** One pass of the Bogocrypt1 read loop: read a block, stop on a short read, else decipher and append it. */
  method Bogo1Step(input: Bytes, p: nat, remaining: int, k: bv32, block: array<bv8>, output: Bytes)
    returns (short: bool, p': nat, remaining': int, k': bv32, output': Bytes)
    requires p <= |input| && block.Length == BLOCK && remaining > 0
    modifies block
    ensures short ==> Bogo1Blocks(input, p, remaining, k, old(block[..]), output) == Err(EndOfStream)
    ensures !short ==> p' <= |input| && remaining' < remaining
    ensures !short ==>
      Bogo1Blocks(input, p, remaining, k, old(block[..]), output) == Bogo1Blocks(input, p', remaining', k', block[..], output')
  {
    var groups := BlockWords(BLOCK_GROUPS, remaining);
    var blockLength := 4 * groups;
    var actualBlockLength := Min(BLOCK, remaining);
    // blockLength is never 0 here, so ArchiveEntry.Read's InvalidOperation guard never fires.
    var got := ReadInto(input, p, block, blockLength);
    ghost var filled := block[..];
    ghost var ciphered := Bogo1(filled[..blockLength], k, groups) + filled[blockLength..];
    Bogo1BlocksStep(input, p, remaining, k, old(block[..]), output, got, groups, filled, ciphered,
                    p + got, remaining - blockLength, KeyAt(NextKey, k, groups), output + ciphered[..actualBlockLength]);
    if got < actualBlockLength {
      return true, p, remaining, k, output;
    }
    k' := DecipherBlock(block, groups, k);
    assert block[..] == ciphered;
    assert block[..actualBlockLength] == ciphered[..actualBlockLength];
    output' := output + block[..actualBlockLength];
    short, p', remaining' := false, p + got, remaining - blockLength;
  }

  /** The Bogocrypt1 branch of Read / ReadEntry: `length` bytes from `pos`, with the entry's key. */
  method ReadBogocrypt1(input: Bytes, pos: nat, length: u32, key: bv32) returns (r: Result<(Bytes, nat)>)
    requires pos <= |input|
    ensures r == Bogo1Blocks(input, pos, length, key, Zeros(BLOCK), [])
  {
    var output: Bytes := [];
    var k := key;
    var remaining: int := length;
    var block := new bv8[BLOCK](_ => 0);
    var p: nat := pos;
    assert block[..] == Zeros(BLOCK);
    while remaining > 0
      invariant p <= |input| && block.Length == BLOCK
      invariant Bogo1Blocks(input, p, remaining, k, block[..], output) == Bogo1Blocks(input, pos, length, key, Zeros(BLOCK), [])
      decreases remaining
    {
      var short;
      short, p, remaining, k, output := Bogo1Step(input, p, remaining, k, block, output);
      if short {
        return Err(EndOfStream);
      }
    }
    return Ok((output, p));
  }

  // ---------------------------------------------------------------------------
  // Bogocrypt2 entries

  /**
   * The Bogocrypt2 branch as written: while at least four bytes remain, read
   * `min(1024, remaining)` bytes, XOR all of them with the table and append them;
   * then copy what is left, at most three bytes, as it is.
   */
  function Bogo2Blocks(input: Bytes, pos: nat, remaining: int, output: Bytes): Result<(Bytes, nat)>
    requires pos <= |input|
    decreases remaining
  {
    if remaining >= 4 then
      var n := Min(BLOCK, remaining);
      if |input| - pos < n then Err(EndOfStream)
      else Bogo2Blocks(input, pos + n, remaining - n, output + Bogo2(input[pos..pos + n]))
    else if remaining > 0 then
      if |input| - pos < remaining then Err(EndOfStream)
      else Ok((output + input[pos..pos + remaining], pos + remaining))
    else Ok((output, pos))
  }

  /** The Bogocrypt2 branch produces exactly the `remaining` bytes it was asked for. */
  lemma {:induction false} Bogo2BlocksLength(input: Bytes, pos: nat, remaining: int, output: Bytes)
    requires pos <= |input|
    ensures var r := Bogo2Blocks(input, pos, remaining, output);
      r.Ok? ==> |r.value.0| == |output| + (if remaining > 0 then remaining else 0)
    decreases remaining
  {
    if remaining >= 4 {
      var n := Min(BLOCK, remaining);
      if |input| - pos >= n {
        Bogo2BlocksLength(input, pos + n, remaining - n, output + Bogo2(input[pos..pos + n]));
      }
    }
  }

  /**
   * The bytes of an entry that stay unciphered: the one to three bytes past the
   * last whole kilobyte, when the loop leaves only those.
   */
  function RawTail(length: nat): (t: nat)
    ensures t < 4 && t <= length
    ensures length >= 4 && length % BLOCK >= 4 ==> t == 0
  {
    if length % BLOCK < 4 then length % BLOCK else 0
  }

  /**
   * The Bogocrypt2 branch fails exactly when the stream is short, and otherwise
   * gives the table XOR of all but the raw tail, then the raw tail.
   */
  lemma {:induction false} Bogo2BlocksValue(input: Bytes, pos: nat, remaining: nat, output: Bytes)
    requires pos <= |input|
    ensures var c := remaining - RawTail(remaining);
      Bogo2Blocks(input, pos, remaining, output) ==
      if pos + remaining > |input| then Err(EndOfStream)
      else Ok((output + Bogo2(input[pos..pos + c]) + input[pos + c..pos + remaining], pos + remaining))
    decreases remaining
  {
    if remaining <= BLOCK {
      Bogo2BlocksLast(input, pos, remaining, output);
    } else if pos + BLOCK <= |input| {
      var next := output + Bogo2(input[pos..pos + BLOCK]);
      Bogo2BlocksValue(input, pos + BLOCK, remaining - BLOCK, next);
      Bogo2BlocksMore(input, pos, remaining, output);
    }
  }

  /** The last pass: at most one kilobyte left, ciphered whole unless it is under four bytes. */
  lemma Bogo2BlocksLast(input: Bytes, pos: nat, remaining: nat, output: Bytes)
    requires pos <= |input| && remaining <= BLOCK
    ensures var c := remaining - RawTail(remaining);
      Bogo2Blocks(input, pos, remaining, output) ==
      if pos + remaining > |input| then Err(EndOfStream)
      else Ok((output + Bogo2(input[pos..pos + c]) + input[pos + c..pos + remaining], pos + remaining))
  {
    if pos + remaining <= |input| {
      if remaining >= 4 {
        var done := output + Bogo2(input[pos..pos + remaining]);
        assert Min(BLOCK, remaining) == remaining && RawTail(remaining) == 0;
        assert Bogo2Blocks(input, pos, remaining, output) == Bogo2Blocks(input, pos + remaining, 0, done);
        assert done + input[pos + remaining..pos + remaining] == done;
      } else {
        var tail := input[pos..pos + remaining];
        assert RawTail(remaining) == remaining;
        assert Bogo2(input[pos..pos]) == [];
        assert output + [] + tail == output + tail;
        assert remaining == 0 ==> output + tail == output;
      }
    }
  }

  /** A full kilobyte in front: it is ciphered on its own, as the table restarts every 128 bytes. */
  lemma Bogo2BlocksMore(input: Bytes, pos: nat, remaining: nat, output: Bytes)
    requires pos + BLOCK <= |input| && remaining > BLOCK
    requires var c := remaining - BLOCK - RawTail(remaining - BLOCK);
      var next := output + Bogo2(input[pos..pos + BLOCK]);
      Bogo2Blocks(input, pos + BLOCK, remaining - BLOCK, next) ==
      if pos + remaining > |input| then Err(EndOfStream)
      else Ok((next + Bogo2(input[pos + BLOCK..pos + BLOCK + c]) + input[pos + BLOCK + c..pos + remaining], pos + remaining))
    ensures var c := remaining - RawTail(remaining);
      Bogo2Blocks(input, pos, remaining, output) ==
      if pos + remaining > |input| then Err(EndOfStream)
      else Ok((output + Bogo2(input[pos..pos + c]) + input[pos + c..pos + remaining], pos + remaining))
  {
    var t := RawTail(remaining);
    assert RawTail(remaining - BLOCK) == t;
    var c := remaining - t;
    var head := input[pos..pos + BLOCK];
    var next := output + Bogo2(head);
    assert Min(BLOCK, remaining) == BLOCK;
    assert Bogo2Blocks(input, pos, remaining, output) == Bogo2Blocks(input, pos + BLOCK, remaining - BLOCK, next);
    if pos + remaining <= |input| {
      var rest, tail := input[pos + BLOCK..pos + c], input[pos + c..pos + remaining];
      Adjacent(input, pos, pos + BLOCK, pos + c);
      Bogo2Split(head, rest, 8);
      assert Bogo2(input[pos..pos + c]) == Bogo2(head) + Bogo2(rest);
      AppendAssoc(output, Bogo2(head), Bogo2(rest));
    }
  }

  lemma AppendAssoc<T>(a: seq<T>, b: seq<T>, c: seq<T>)
    ensures a + b + c == a + (b + c)
  {
  }

  /** Bogocrypt2 over the first n bytes of a block buffer, whole groups and the part group after them. */
  method DecipherBlock2(block: array<bv8>, n: nat)
    requires n <= block.Length == BLOCK
    modifies block
    ensures block[..n] == Bogo2(old(block[..n]))
  {
    ghost var filled := block[..];
    var end := 4 * Groups(n);
    Bogocrypt2(block, 0, n);
    Bogo2Prefix(filled[..end], n);
    assert filled[..end][..n] == filled[..n];
    assert block[..n] == block[..end][..n];
  }

  /** One pass of the Bogocrypt2 read loop: read a block, stop on a short read, else XOR and append it. */
  method Bogo2Step(input: Bytes, p: nat, remaining: int, block: array<bv8>, output: Bytes)
    returns (short: bool, p': nat, remaining': int, output': Bytes)
    requires p <= |input| && block.Length == BLOCK && remaining >= 4
    modifies block
    ensures short ==> Bogo2Blocks(input, p, remaining, output) == Err(EndOfStream)
    ensures !short ==> p' <= |input| && remaining' < remaining
    ensures !short ==> Bogo2Blocks(input, p, remaining, output) == Bogo2Blocks(input, p', remaining', output')
  {
    var blockLength := Min(BLOCK, remaining);
    var got := ReadInto(input, p, block, blockLength);
    if got != blockLength {
      return true, p, remaining, output;
    }
    assert block[..blockLength] == input[p..p + blockLength];
    DecipherBlock2(block, blockLength);
    Bogo2BlocksStep(input, p, remaining, output);
    output' := output + block[..blockLength];
    short, p', remaining' := false, p + blockLength, remaining - blockLength;
  }

  /** One pass of Bogo2Blocks over a block that is there to read. */
  lemma Bogo2BlocksStep(input: Bytes, p: nat, remaining: int, output: Bytes)
    requires p <= |input| && remaining >= 4 && p + Min(BLOCK, remaining) <= |input|
    ensures var n := Min(BLOCK, remaining);
      Bogo2Blocks(input, p, remaining, output) == Bogo2Blocks(input, p + n, remaining - n, output + Bogo2(input[p..p + n]))
  {
  }

  /** The Bogocrypt2 branch of Read / ReadEntry: `length` bytes from `pos`. */
  method ReadBogocrypt2(input: Bytes, pos: nat, length: u32) returns (r: Result<(Bytes, nat)>)
    requires pos <= |input|
    ensures r == Bogo2Blocks(input, pos, length, [])
  {
    var output: Bytes := [];
    var remaining: int := length;
    var block := new bv8[BLOCK];
    var p: nat := pos;
    while remaining >= 4
      invariant p <= |input| && block.Length == BLOCK
      invariant Bogo2Blocks(input, p, remaining, output) == Bogo2Blocks(input, pos, length, [])
      decreases remaining
    {
      var short;
      short, p, remaining, output := Bogo2Step(input, p, remaining, block, output);
      if short {
        return Err(EndOfStream);
      }
    }
    if remaining > 0 {
      // WriteFromStream(input, remaining): the tail is copied as it is.
      if |input| - p < remaining {
        return Err(EndOfStream);
      }
      output := output + input[p..p + remaining];
      p := p + remaining;
    }
    return Ok((output, p));
  }
}
