/**
 * The MiniZ branch of the Rebirth entry reader. An entry is a run of blocks,
 * each behind a 32-bit header whose top bit marks the last block and whose low
 * 31 bits give the block length. A block is either raw deflate, inflated from
 * the whole 0x800-byte block buffer, or, once a non-last block of exactly 1024
 * bytes has been seen, plain bytes XORed with an ISAAC keystream; the raw mode
 * then stays on for the rest of the entry.
 */
module RebirthMiniZ {
  import opened Wrappers
  import opened ByteIO
  import opened Arith
  import opened Bogocrypt
  import opened RebirthArchive
  import opened RebirthEntry
  import Isaac

  const BUFFER: nat := 0x800
  const LAST_BLOCK: nat := 0x8000_0000
  const RAW_BLOCK: nat := 1024
  /** The most bytes one inflated block may add to the output. */
  const INFLATE_LIMIT: nat := 1024

  // ---------------------------------------------------------------------------
  // The keystream

  /** The C# `int` whose 32-bit pattern is w. */
  function Signed(w: u32): (x: int)
    ensures -0x8000_0000 <= x < 0x8000_0000
    ensures x % TWO_32 == w
  {
    if w < 0x8000_0000 then w else w - TWO_32
  }

  /** 256^k, for the four bytes of a word. */
  function Scale(k: nat): (d: nat)
    requires k < 4
    ensures d > 0
  {
    if k == 0 then 1 else if k == 1 then 0x100 else if k == 2 then 0x1_0000 else 0x100_0000
  }

  /** Byte k of a word, counted from the least significant one. */
  function WordByte(w: u32, k: nat): bv8
    requires k < 4
  {
    ByteOf(w / Scale(k) % 0x100)
  }

  /** Keystream byte o: byte o % 4 of ISAAC word o / 4. */
  function KeyByte(keys: Isaac.Reader, o: nat): bv8
    requires keys.Ready()
  {
    WordByte(Isaac.Draw(keys, o / 4).Word(), o % 4)
  }

  /** The n keystream bytes of a raw block that starts with the generator at `keys`. */
  function KeyStream(keys: Isaac.Reader, n: nat): (ks: Bytes)
    requires keys.Ready()
    ensures |ks| == n
  {
    seq(n, o requires 0 <= o < n => KeyByte(keys, o))
  }

  /** Taking a multiple of the divisor off a number takes it off the quotient only. */
  lemma SubMultiple(x: int, d: nat, m: int)
    requires d > 0
    ensures (x - m * d) / d == x / d - m && (x - m * d) % d == x % d
  {
    DivMod(x, d);
    assert x - m * d == (x / d - m) * d + x % d;
    DivModUnique(x - m * d, d, x / d - m, x % d);
  }

  /**
   * The low byte of the signed seed after k arithmetic shifts by 8 is byte k of
   * the word's 32-bit pattern: the sign bits shifted in never reach it.
   */
  lemma SignedByte(w: u32, k: nat)
    requires k < 4
    ensures (Signed(w) / Scale(k)) % 0x100 == (w / Scale(k)) % 0x100
  {
    if w >= 0x8000_0000 {
      var d := Scale(k);
      var m: int := if k == 0 then TWO_32 else if k == 1 then 0x100_0000 else if k == 2 then 0x1_0000 else 0x100;
      assert m * d == TWO_32 && (m / 0x100) * 0x100 == m;
      SubMultiple(w, d, m);
      SubMultiple(w / d, 0x100, m / 0x100);
    }
  }

  /** The XOR of a prefix, extended by one byte. */
  lemma XorExtend(orig: Bytes, cur: Bytes, keys: Isaac.Reader, o: nat)
    requires keys.Ready() && o < |orig| == |cur|
    requires cur[..o] == XorBytes(orig[..o], KeyStream(keys, o))
    requires cur[o] == orig[o] ^ KeyByte(keys, o)
    ensures cur[..o + 1] == XorBytes(orig[..o + 1], KeyStream(keys, o + 1))
  {
    assert KeyStream(keys, o + 1) == KeyStream(keys, o) + [KeyByte(keys, o)];
    assert orig[..o + 1] == orig[..o] + [orig[o]];
    XorAppend(orig[..o], KeyStream(keys, o), [orig[o]], [KeyByte(keys, o)]);
    assert cur[..o + 1] == cur[..o] + [cur[o]];
  }

  /**
   * The seed update of the raw-block loop at byte o: at `o & 3 == 0` the seed
   * takes the next ISAAC word, otherwise it is shifted right by 8, arithmetically,
   * as a C# `int` is.
   */
  method NextSeed(o: nat, seed: int, isaac: Isaac.Isaac, ghost keys: Isaac.Reader) returns (seed': int)
    requires isaac.Valid() && keys.Ready() && isaac.ReaderOf() == Isaac.Draw(keys, Run(o))
    requires o % 4 != 0 ==> seed == Signed(Isaac.Draw(keys, o / 4).Word()) / Scale(o % 4 - 1)
    modifies isaac, isaac.state, isaac.results
    ensures isaac.Valid() && isaac.ReaderOf() == Isaac.Draw(keys, Run(o + 1))
    ensures seed' == Signed(Isaac.Draw(keys, o / 4).Word()) / Scale(o % 4)
  {
    ghost var w := Isaac.Draw(keys, o / 4).Word();
    if o % 4 != 0 {
      assert Run(o + 1) == Run(o);
      seed' := seed / 0x100;
      ShiftSeed(w, o % 4, seed);
    } else {
      assert Run(o) == o / 4 && Run(o + 1) == o / 4 + 1;
      var v := isaac.Value();
      seed' := Signed(v);
      assert Signed(w) / Scale(0) == Signed(w);
    }
  }

  /** `blockBytes[o] ^= k` with k keystream byte o, extending the XORed prefix. */
  method XorByte(block: array<bv8>, o: nat, k: bv8, ghost keys: Isaac.Reader, ghost orig: Bytes)
    requires o < block.Length == |orig| && keys.Ready() && k == KeyByte(keys, o)
    requires block[..o] == XorBytes(orig[..o], KeyStream(keys, o)) && block[o..] == orig[o..]
    modifies block
    ensures block[..o + 1] == XorBytes(orig[..o + 1], KeyStream(keys, o + 1)) && block[o + 1..] == orig[o + 1..]
  {
    ghost var before := block[..];
    block[o] := block[o] ^ k;
    assert block[..o] == before[..o];
    XorExtend(orig, block[..], keys, o);
    assert block[o + 1..] == before[o + 1..];
  }

  /** One pass of the raw-block loop at byte o: the seed update, then `blockBytes[o] ^= (byte)seed`. */
  method KeyStep(block: array<bv8>, o: nat, seed: int, isaac: Isaac.Isaac, ghost keys: Isaac.Reader, ghost orig: Bytes)
    returns (seed': int)
    requires o < block.Length == |orig| && isaac.Valid() && keys.Ready()
    requires block as object != isaac.state && block as object != isaac.results
    requires isaac.ReaderOf() == Isaac.Draw(keys, Run(o))
    requires o % 4 != 0 ==> seed == Signed(Isaac.Draw(keys, o / 4).Word()) / Scale(o % 4 - 1)
    requires block[..o] == XorBytes(orig[..o], KeyStream(keys, o)) && block[o..] == orig[o..]
    modifies block, isaac, isaac.state, isaac.results
    ensures isaac.Valid() && isaac.ReaderOf() == Isaac.Draw(keys, Run(o + 1))
    ensures seed' == Signed(Isaac.Draw(keys, o / 4).Word()) / Scale(o % 4)
    ensures block[..o + 1] == XorBytes(orig[..o + 1], KeyStream(keys, o + 1)) && block[o + 1..] == orig[o + 1..]
  {
    seed' := NextSeed(o, seed, isaac, keys);
    SeedByte(Isaac.Draw(keys, o / 4).Word(), o % 4, seed');
    XorByte(block, o, ByteOf(seed' % 0x100), keys, orig);
  }

  /** `seed >>= 8` moves the seed from byte k - 1 of the word to byte k. */
  lemma ShiftSeed(w: u32, k: nat, seed: int)
    requires 0 < k < 4 && seed == Signed(w) / Scale(k - 1)
    ensures seed / 0x100 == Signed(w) / Scale(k)
  {
    DivDiv(Signed(w), Scale(k - 1), 0x100);
    assert Scale(k - 1) * 0x100 == Scale(k);
  }

  /** `(byte)seed` is byte k of the word when the seed holds it shifted down by k bytes. */
  lemma SeedByte(w: u32, k: nat, seed: int)
    requires k < 4 && seed == Signed(w) / Scale(k)
    ensures ByteOf(seed % 0x100) == WordByte(w, k)
  {
    SignedByte(w, k);
  }

  /** The raw-block loop over the first n bytes of the block buffer. */
  method XorKeystream(block: array<bv8>, n: nat, isaac: Isaac.Isaac)
    requires n <= block.Length && isaac.Valid()
    requires block as object != isaac.state && block as object != isaac.results
    modifies block, isaac, isaac.state, isaac.results
    ensures isaac.Valid() && isaac.ReaderOf() == Isaac.Draw(old(isaac.ReaderOf()), Run(n))
    ensures block[..n] == XorBytes(old(block[..n]), KeyStream(old(isaac.ReaderOf()), n))
    ensures block[n..] == old(block[n..])
  {
    ghost var keys := isaac.ReaderOf();
    ghost var orig := block[..];
    var seed: int := 0;
    for o := 0 to n
      invariant isaac.Valid() && isaac.ReaderOf() == Isaac.Draw(keys, Run(o))
      invariant o % 4 != 0 ==> seed == Signed(Isaac.Draw(keys, o / 4).Word()) / Scale(o % 4 - 1)
      invariant block[..o] == XorBytes(orig[..o], KeyStream(keys, o)) && block[o..] == orig[o..]
    {
      seed := KeyStep(block, o, seed, isaac, keys, orig);
      assert (o + 1) % 4 != 0 ==> (o + 1) / 4 == o / 4 && (o + 1) % 4 - 1 == o % 4;
    }
  }

  /** n draws after a draws are a + n draws. */
  lemma {:induction false} DrawAdd(keys: Isaac.Reader, a: nat, n: nat)
    requires keys.Ready()
    ensures Isaac.Draw(Isaac.Draw(keys, a), n) == Isaac.Draw(keys, a + n)
  {
    if n > 0 {
      DrawAdd(keys, a, n - 1);
    }
  }

  /**
   * The keystream of whole words continues where it stopped: 4k bytes and then m
   * more from the generator k words on are the first 4k + m bytes.
   */
  lemma KeyStreamSplit(keys: Isaac.Reader, k: nat, m: nat)
    requires keys.Ready()
    ensures KeyStream(keys, 4 * k + m) == KeyStream(keys, 4 * k) + KeyStream(Isaac.Draw(keys, k), m)
  {
    var whole, head, tail := KeyStream(keys, 4 * k + m), KeyStream(keys, 4 * k), KeyStream(Isaac.Draw(keys, k), m);
    forall o | 4 * k <= o < 4 * k + m
      ensures whole[o] == tail[o - 4 * k]
    {
      var j := o - 4 * k;
      DivModUnique(o, 4, k + j / 4, j % 4);
      DrawAdd(keys, k, j / 4);
    }
    assert whole == head + tail;
  }

  // ---------------------------------------------------------------------------
  // The block loop as a function

  /**
   * The loop state between blocks: the 0x800-byte block buffer (what the last
   * read and XOR left in it), the output written so far, the `isCompressed` flag
   * and the generator the next raw block draws from.
   */
  datatype Blocks = Blocks(buffer: Bytes, output: Bytes, compressed: bool, keys: Isaac.Reader)
  {
    predicate Valid(length: nat)
    {
      |buffer| == BUFFER && |output| <= length && keys.Ready()
    }
  }

  /**
   * One block whose n bytes `data` were read into the buffer. A raw block is
   * XORed with the keystream and copied at the running output offset, which
   * fails when it would end past `length`. A compressed block inflates the whole
   * buffer, stale bytes after `data` included, and takes at most
   * min(remaining, 1024) bytes of the result.
   */
  function MiniZBlock(data: Bytes, last: bool, length: nat, inflate: Bytes -> Result<Bytes>, s: Blocks): (r: Result<Blocks>)
    requires |data| <= BUFFER && s.Valid(length)
    ensures r.Ok? ==> r.value.Valid(length) && s.output <= r.value.output
    ensures r.Ok? && r.value.compressed ==> s.compressed && r.value.keys == s.keys
    ensures r.Ok? && (!s.compressed || (!last && |data| == RAW_BLOCK)) ==> !r.value.compressed
  {
    var n := |data|;
    if !s.compressed || (!last && n == RAW_BLOCK) then
      var plain := XorBytes(data, KeyStream(s.keys, n));
      if |s.output| + n > length then Err(Argument)
      else Ok(Blocks(plain + s.buffer[n..], s.output + plain, false, Isaac.Draw(s.keys, Run(n))))
    else
      var filled := data + s.buffer[n..];
      match inflate(filled)
      case Err(e) => Err(e)
      case Ok(z) =>
        var read := z[..Min(|z|, Min(length - |s.output|, INFLATE_LIMIT))];
        Ok(s.(buffer := filled, output := s.output + read))
  }

  /**
   * The header of the block at pos: its length (the low 31 bits), whether it is
   * the last one (the top bit) and where its bytes start. A length beyond the
   * block buffer and a block cut short by the end of the input are errors.
   */
  function BlockHeader(input: Bytes, pos: nat, e: Endian): (r: Result<(nat, bool, nat)>)
    ensures r.Ok? ==> r.value.0 <= BUFFER && r.value.2 == pos + 4 && r.value.2 + r.value.0 <= |input|
  {
    match ReadU32N(input, pos, e)
    case Err(err) => Err(err)
    case Ok((flags, p)) =>
      var n := flags % LAST_BLOCK;
      if n > BUFFER then Err(InvalidOperation)
      else if |input| - p < n then Err(EndOfStream)
      else Ok((n, flags >= LAST_BLOCK, p))
  }

  /**
   * One pass of the do-while loop from input position pos: the header, the
   * block's bytes and what the block does to the state; the result also says
   * whether the block was the last one and where the next header starts.
   */
  function MiniZNext(input: Bytes, pos: nat, e: Endian, length: nat, inflate: Bytes -> Result<Bytes>, s: Blocks)
    : (r: Result<(Blocks, bool, nat)>)
    requires pos <= |input| && s.Valid(length)
    ensures r.Ok? ==> pos < r.value.2 <= |input| && r.value.0.Valid(length) && s.output <= r.value.0.output
    ensures r.Ok? && !s.compressed ==> !r.value.0.compressed
  {
    PassAfter(input, BlockHeader(input, pos, e), length, inflate, s)
  }

  /** The rest of a pass once the header has been read: the block's bytes and what they do to the state. */
  function PassAfter(input: Bytes, header: Result<(nat, bool, nat)>, length: nat, inflate: Bytes -> Result<Bytes>, s: Blocks)
    : (r: Result<(Blocks, bool, nat)>)
    requires header.Ok? ==> header.value.0 <= BUFFER && header.value.2 + header.value.0 <= |input|
    requires s.Valid(length)
    ensures r.Ok? ==> header.Ok? && r.value.2 == header.value.2 + header.value.0 && r.value.1 == header.value.1
    ensures r.Ok? ==> r.value.0.Valid(length) && s.output <= r.value.0.output
    ensures r.Ok? && !s.compressed ==> !r.value.0.compressed
  {
    match header
    case Err(err) => Err(err)
    case Ok((n, last, p)) =>
      match MiniZBlock(input[p..p + n], last, length, inflate, s)
      case Err(err) => Err(err)
      case Ok(s') => Ok((s', last, p + n))
  }

  /**
   * The do-while loop over blocks from input position pos, until the block
   * flagged last; the result is the `length`-byte output buffer, zero where no
   * block wrote.
   */
  function MiniZBlocks(input: Bytes, pos: nat, e: Endian, length: nat, inflate: Bytes -> Result<Bytes>, s: Blocks): (r: Result<Bytes>)
    requires pos <= |input| && s.Valid(length)
    ensures r.Ok? ==> |r.value| == length
    decreases |input| - pos
  {
    match MiniZNext(input, pos, e, length, inflate, s)
    case Err(err) => Err(err)
    case Ok((s', last, p')) =>
      if last then Ok(s'.output + Zeros(length - |s'.output|))
      else MiniZBlocks(input, p', e, length, inflate, s')
  }

  /**
   * Once raw, always raw: from a raw state the inflater is never consulted, so
   * the result does not depend on it.
   */
  lemma {:induction false} RawIgnoresInflate(input: Bytes, pos: nat, e: Endian, length: nat,
                                             f: Bytes -> Result<Bytes>, g: Bytes -> Result<Bytes>, s: Blocks)
    requires pos <= |input| && s.Valid(length) && !s.compressed
    ensures MiniZBlocks(input, pos, e, length, f, s) == MiniZBlocks(input, pos, e, length, g, s)
    decreases |input| - pos
  {
    var r := MiniZNext(input, pos, e, length, f, s);
    RawNextIgnoresInflate(input, pos, e, length, f, g, s);
    if r.Ok? && !r.value.1 {
      RawIgnoresInflate(input, r.value.2, e, length, f, g, r.value.0);
    }
  }

  /** One block from a raw state does not consult the inflater. */
  lemma RawNextIgnoresInflate(input: Bytes, pos: nat, e: Endian, length: nat,
                              f: Bytes -> Result<Bytes>, g: Bytes -> Result<Bytes>, s: Blocks)
    requires pos <= |input| && s.Valid(length) && !s.compressed
    ensures MiniZNext(input, pos, e, length, f, s) == MiniZNext(input, pos, e, length, g, s)
  {
    match BlockHeader(input, pos, e)
    case Err(_) =>
    case Ok((n, last, p)) =>
      assert MiniZBlock(input[p..p + n], last, length, f, s) == MiniZBlock(input[p..p + n], last, length, g, s);
      assert PassAfter(input, Ok((n, last, p)), length, f, s) == PassAfter(input, Ok((n, last, p)), length, g, s);
  }

  /** A raw block of plain bytes XORed with the keystream comes out as the plain bytes. */
  lemma RawBlockInverse(plain: Bytes, length: nat, inflate: Bytes -> Result<Bytes>, s: Blocks)
    requires |plain| <= BUFFER && s.Valid(length) && !s.compressed && |s.output| + |plain| <= length
    ensures var r := MiniZBlock(XorBytes(plain, KeyStream(s.keys, |plain|)), false, length, inflate, s);
      r.Ok? && r.value.output == s.output + plain
  {
    XorTwice(plain, KeyStream(s.keys, |plain|));
  }

  // ---------------------------------------------------------------------------
  // The block loop over one buffer per block

  /** The generator's arrays are neither the block buffer nor the output buffer. */
  predicate Apart(block: array<bv8>, output: array<bv8>, isaac: Isaac.Isaac)
  {
    block as object != isaac.state && block as object != isaac.results &&
    output as object != isaac.state && output as object != isaac.results
  }

  /** `Array.Copy` of `data` into `dst` at `at`, or a read into it there. */
  method WriteAt(dst: array<bv8>, at: nat, data: Bytes)
    requires at + |data| <= dst.Length
    modifies dst
    ensures dst[..] == old(dst[..at]) + data + old(dst[at + |data|..])
  {
    for k := 0 to |data|
      invariant forall i :: 0 <= i < k ==> dst[at + i] == data[i]
      invariant forall i :: 0 <= i < dst.Length && !(at <= i < at + k) ==> dst[i] == old(dst[i])
    {
      dst[at + k] := data[k];
    }
    assert dst[..] == old(dst[..at]) + data + old(dst[at + |data|..]);
  }

  lemma ZerosSplit(n: nat, m: nat)
    requires m <= n
    ensures Zeros(n)[m..] == Zeros(n - m)
  {
  }

  /** Writing after the output so far, over the zeros that follow it. */
  lemma WriteOutput(before: Bytes, after: Bytes, written: Bytes, data: Bytes, length: nat)
    requires |written| + |data| <= length
    requires before == written + Zeros(length - |written|)
    requires after == before[..|written|] + data + before[|written| + |data|..]
    ensures after == (written + data) + Zeros(length - |written + data|)
  {
    assert before[..|written|] == written;
    assert before[|written| + |data|..] == Zeros(length - |written|)[|data|..];
    ZerosSplit(length - |written|, |data|);
  }

  /** Writing a block's output at the running offset, over the zeros that follow what was written. */
  method Emit(output: array<bv8>, at: nat, data: Bytes, ghost written: Bytes, ghost length: nat)
    requires output.Length == length && |written| <= length && output[..] == written + Zeros(length - |written|)
    requires at == |written| && at + |data| <= length
    modifies output
    ensures output[..] == (written + data) + Zeros(length - |written + data|)
  {
    ghost var before := output[..];
    WriteAt(output, at, data);
    WriteOutput(before, output[..], written, data, length);
  }

  /** `if (isaac == null) isaac = this.GetISAAC();` */
  method Generator(entry: Entry, isaac: Isaac.Isaac?, block: array<bv8>, output: array<bv8>, ghost keys: Isaac.Reader)
    returns (isaac': Isaac.Isaac)
    requires isaac == null ==> IsaacOf(entry.nameHashB, keys)
    requires isaac != null ==> isaac.Valid() && isaac.ReaderOf() == keys && Apart(block, output, isaac)
    ensures isaac'.Valid() && isaac'.ReaderOf() == keys && Apart(block, output, isaac')
    ensures isaac' == isaac || (isaac == null && fresh(isaac') && fresh(isaac'.state) && fresh(isaac'.results))
  {
    if isaac == null {
      isaac' := GetIsaac(entry);
      IsaacOfUnique(entry.nameHashB, isaac'.ReaderOf(), keys);
    } else {
      isaac' := isaac;
    }
  }

  /**
   * A raw block whose n bytes `data` were read into the buffer: create the
   * generator if there is none yet, XOR the bytes in place and copy them to the
   * output at the running offset.
   */
  method RawBlock(entry: Entry, length: nat, inflate: Bytes -> Result<Bytes>, block: array<bv8>, output: array<bv8>,
                  n: nat, outputOffset: nat, remaining: int, isaac: Isaac.Isaac?, ghost s: Blocks, ghost data: Bytes, ghost last: bool)
    returns (failure: Option<Error>, outputOffset': nat, remaining': int, isaac': Isaac.Isaac)
    requires s.Valid(length) && |data| == n <= BUFFER && block != output
    requires !s.compressed || (!last && n == RAW_BLOCK)
    requires block.Length == BUFFER && block[..] == data + s.buffer[n..]
    requires output.Length == length && output[..] == s.output + Zeros(length - |s.output|)
    requires outputOffset == |s.output| && remaining == length - outputOffset
    requires isaac == null ==> IsaacOf(entry.nameHashB, s.keys)
    requires isaac != null ==> isaac.Valid() && isaac.ReaderOf() == s.keys && Apart(block, output, isaac)
    modifies block, output, isaac, if isaac == null then {} else {isaac.state, isaac.results}
    ensures failure.Some? ==> MiniZBlock(data, last, length, inflate, s) == Err(failure.value)
    ensures failure.None? ==> MiniZBlock(data, last, length, inflate, s).Ok?
    ensures failure.None? ==> block[..] == MiniZBlock(data, last, length, inflate, s).value.buffer
    ensures failure.None? ==> var out := MiniZBlock(data, last, length, inflate, s).value.output;
      output[..] == out + Zeros(length - |out|) && outputOffset' == |out| && remaining' == length - outputOffset'
    ensures failure.None? ==> isaac'.Valid() && isaac'.ReaderOf() == MiniZBlock(data, last, length, inflate, s).value.keys
    ensures Apart(block, output, isaac')
    ensures isaac' == isaac || (fresh(isaac') && fresh(isaac'.state) && fresh(isaac'.results))
  {
    isaac' := Generator(entry, isaac, block, output, s.keys);
    XorKeystream(block, n, isaac');
    if outputOffset + n > output.Length {
      return Some(Argument), outputOffset, remaining, isaac';
    }
    Emit(output, outputOffset, block[..n], s.output, length);
    failure, outputOffset', remaining' := None, outputOffset + n, remaining - n;
  }

  /**
   * A compressed block: inflate the whole block buffer and write at most
   * min(remaining, 1024) of the bytes at the running offset.
   */
  method InflateBlock(length: nat, inflate: Bytes -> Result<Bytes>, block: array<bv8>, output: array<bv8>,
                      n: nat, outputOffset: nat, remaining: int, ghost s: Blocks, ghost data: Bytes, ghost last: bool)
    returns (failure: Option<Error>, outputOffset': nat, remaining': int)
    requires s.Valid(length) && |data| == n <= BUFFER && block != output
    requires s.compressed && !(!last && n == RAW_BLOCK)
    requires block.Length == BUFFER && block[..] == data + s.buffer[n..]
    requires output.Length == length && output[..] == s.output + Zeros(length - |s.output|)
    requires outputOffset == |s.output| && remaining == length - outputOffset
    modifies output
    ensures var next := MiniZBlock(data, last, length, inflate, s);
      if failure.Some? then next == Err(failure.value)
      else
        next.Ok? && block[..] == next.value.buffer && output[..] == next.value.output + Zeros(length - |next.value.output|) &&
        outputOffset' == |next.value.output| && remaining' == length - outputOffset' &&
        next.value.compressed && next.value.keys == s.keys
  {
    var z := inflate(block[..]);
    if z.Err? {
      return Some(z.error), outputOffset, remaining;
    }
    var read := z.value[..Min(|z.value|, Min(remaining, INFLATE_LIMIT))];
    Emit(output, outputOffset, read, s.output, length);
    failure, outputOffset', remaining' := None, outputOffset + |read|, remaining - |read|;
  }

  /** What the rest of a pass makes of a block once its header and bytes have been read. */
  lemma PassAfterOf(input: Bytes, n: nat, last: bool, at: nat, length: nat, inflate: Bytes -> Result<Bytes>, s: Blocks,
                    next: Result<Blocks>)
    requires n <= BUFFER && at + n <= |input| && s.Valid(length)
    requires next == MiniZBlock(input[at..at + n], last, length, inflate, s)
    ensures next.Err? ==> PassAfter(input, Ok((n, last, at)), length, inflate, s) == Err(next.error)
    ensures next.Ok? ==> PassAfter(input, Ok((n, last, at)), length, inflate, s) == Ok((next.value, last, at + n))
  {
    var r := PassAfter(input, Ok((n, last, at)), length, inflate, s);
    if next.Err? {
      assert r == Err(next.error);
    } else {
      assert r == Ok((next.value, last, at + n));
    }
  }

  /** A header that cannot be read or does not fit ends the pass with its error. */
  lemma MiniZNextFail(input: Bytes, p: nat, e: Endian, length: nat, inflate: Bytes -> Result<Bytes>, s: Blocks)
    requires p <= |input| && s.Valid(length) && BlockHeader(input, p, e).Err?
    ensures MiniZNext(input, p, e, length, inflate, s) == Err(BlockHeader(input, p, e).error)
  {
  }

  /**
   * The pass at p from state s gives r. It is stated over a one-point range so
   * that the proof of the loop does not expand the pass.
   */
  ghost predicate PassIs(input: Bytes, p: nat, e: Endian, length: nat, inflate: Bytes -> Result<Bytes>, s: Blocks,
                         r: Result<(Blocks, bool, nat)>)
    requires p <= |input| && s.Valid(length)
  {
    forall q: nat | q == p :: MiniZNext(input, q, e, length, inflate, s) == r
  }

  /** The loop from p and state s gives r; stated over a one-point range for the same reason. */
  ghost predicate LoopIs(input: Bytes, p: nat, e: Endian, length: nat, inflate: Bytes -> Result<Bytes>, s: Blocks,
                         r: Result<Bytes>)
    requires p <= |input| && s.Valid(length)
  {
    forall q: nat | q == p :: MiniZBlocks(input, q, e, length, inflate, s) == r
  }

  /** The loop continues as the pass at its head says. */
  lemma LoopStep(input: Bytes, p: nat, e: Endian, length: nat, inflate: Bytes -> Result<Bytes>, s: Blocks,
                 next: Result<(Blocks, bool, nat)>, target: Result<Bytes>)
    requires p <= |input| && s.Valid(length)
    requires PassIs(input, p, e, length, inflate, s, next) && LoopIs(input, p, e, length, inflate, s, target)
    ensures next.Err? ==> target == Err(next.error)
    ensures next.Ok? && next.value.1 ==>
      next.value.0.Valid(length) && target == Ok(next.value.0.output + Zeros(length - |next.value.0.output|))
    ensures next.Ok? && !next.value.1 ==>
      next.value.2 <= |input| && next.value.0.Valid(length) &&
      LoopIs(input, next.value.2, e, length, inflate, next.value.0, target)
  {
    assert MiniZNext(input, p, e, length, inflate, s) == next;
    assert MiniZBlocks(input, p, e, length, inflate, s) == target;
  }

  /**
   * Reading a block's header, then its bytes into the block buffer: the
   * header's own errors, a length beyond the buffer (InvalidOperation) and a
   * short read (EndOfStream) end the pass.
   */
  method ReadBlock(input: Bytes, p: nat, e: Endian, block: array<bv8>) returns (h: Result<(nat, bool, nat)>)
    requires p <= |input| && block.Length == BUFFER
    modifies block
    ensures h == BlockHeader(input, p, e)
    ensures h.Ok? ==> block[..] == input[h.value.2..h.value.2 + h.value.0] + old(block[h.value.0..])
  {
    var header := ReadU32N(input, p, e);
    if header.Err? {
      return Err(header.error);
    }
    var flags, at := header.value.0, header.value.1;
    var n, last := flags % LAST_BLOCK, flags >= LAST_BLOCK;
    if n > block.Length {
      return Err(InvalidOperation);
    }
    var got := ReadInto(input, at, block, n);
    if got != n {
      return Err(EndOfStream);
    }
    h := Ok((n, last, at));
  }

  /** A block read into the buffer, treated as raw or compressed as the loop state says. */
  method DoBlock(entry: Entry, length: nat, inflate: Bytes -> Result<Bytes>, block: array<bv8>, output: array<bv8>,
                 n: nat, last: bool, outputOffset: nat, remaining: int, compressed: bool, isaac: Isaac.Isaac?,
                 ghost s: Blocks, ghost data: Bytes)
    returns (failure: Option<Error>, outputOffset': nat, remaining': int, compressed': bool, isaac': Isaac.Isaac?)
    requires s.Valid(length) && |data| == n <= BUFFER && block != output
    requires block.Length == BUFFER && block[..] == data + s.buffer[n..]
    requires output.Length == length && output[..] == s.output + Zeros(length - |s.output|)
    requires outputOffset == |s.output| && remaining == length - outputOffset && compressed == s.compressed
    requires isaac == null <==> compressed
    requires isaac == null ==> IsaacOf(entry.nameHashB, s.keys)
    requires isaac != null ==> isaac.Valid() && isaac.ReaderOf() == s.keys && Apart(block, output, isaac)
    modifies block, output, isaac, if isaac == null then {} else {isaac.state, isaac.results}
    ensures failure.Some? ==> MiniZBlock(data, last, length, inflate, s) == Err(failure.value)
    ensures failure.None? ==> MiniZBlock(data, last, length, inflate, s).Ok?
    ensures failure.None? ==> var next := MiniZBlock(data, last, length, inflate, s).value;
      block[..] == next.buffer && output[..] == next.output + Zeros(length - |next.output|) &&
      outputOffset' == |next.output| && remaining' == length - outputOffset' && compressed' == next.compressed
    ensures failure.None? ==> (isaac' == null <==> compressed')
    ensures failure.None? && isaac' == null ==> IsaacOf(entry.nameHashB, MiniZBlock(data, last, length, inflate, s).value.keys)
    ensures failure.None? && isaac' != null ==>
      isaac'.Valid() && isaac'.ReaderOf() == MiniZBlock(data, last, length, inflate, s).value.keys && Apart(block, output, isaac')
    ensures failure.None? && isaac' != null ==> isaac' == isaac || (fresh(isaac') && fresh(isaac'.state) && fresh(isaac'.results))
  {
    if !compressed || (!last && n == RAW_BLOCK) {
      var g;
      failure, outputOffset', remaining', g := RawBlock(entry, length, inflate, block, output, n, outputOffset, remaining, isaac, s, data, last);
      compressed', isaac' := false, g;
    } else {
      failure, outputOffset', remaining' := InflateBlock(length, inflate, block, output, n, outputOffset, remaining, s, data, last);
      compressed', isaac' := compressed, isaac;
    }
  }

  /** The rest of a pass once the header at p is known to be good and its bytes are in the buffer. */
  method BlockPass(input: Bytes, p: nat, entry: Entry, length: nat, inflate: Bytes -> Result<Bytes>,
                   block: array<bv8>, output: array<bv8>, outputOffset: nat, remaining: int, compressed: bool,
                   isaac: Isaac.Isaac?, ghost s: Blocks, n: nat, last: bool, at: nat)
    returns (r: Result<bool>, p': nat, outputOffset': nat, remaining': int, compressed': bool,
             isaac': Isaac.Isaac?, ghost s': Blocks)
    requires p < at && n <= BUFFER && at + n <= |input| && s.Valid(length)
    requires block.Length == BUFFER && block[..] == input[at..at + n] + s.buffer[n..]
    requires block != output
    requires output.Length == length && output[..] == s.output + Zeros(length - |s.output|)
    requires outputOffset == |s.output| && remaining == length - outputOffset && compressed == s.compressed
    requires isaac == null <==> compressed
    requires isaac == null ==> IsaacOf(entry.nameHashB, s.keys)
    requires isaac != null ==> isaac.Valid() && isaac.ReaderOf() == s.keys && Apart(block, output, isaac)
    modifies block, output, isaac, if isaac == null then {} else {isaac.state, isaac.results}
    ensures r.Err? ==> PassAfter(input, Ok((n, last, at)), length, inflate, s) == Err(r.error)
    ensures r.Ok? ==> PassAfter(input, Ok((n, last, at)), length, inflate, s) == Ok((s', r.value, p'))
    ensures r.Ok? ==> p < p' <= |input| && s'.Valid(length)
    ensures r.Ok? ==> block[..] == s'.buffer && output[..] == s'.output + Zeros(length - |s'.output|)
    ensures r.Ok? ==> outputOffset' == |s'.output| && remaining' == length - outputOffset' && compressed' == s'.compressed
    ensures r.Ok? ==> (isaac' == null <==> compressed')
    ensures r.Ok? && isaac' == null ==> IsaacOf(entry.nameHashB, s'.keys)
    ensures r.Ok? && isaac' != null ==> isaac'.Valid() && isaac'.ReaderOf() == s'.keys && Apart(block, output, isaac')
    ensures r.Ok? && isaac' != null ==> isaac' == isaac || (fresh(isaac') && fresh(isaac'.state) && fresh(isaac'.results))
  {
    ghost var data := input[at..at + n];
    ghost var next := MiniZBlock(data, last, length, inflate, s);
    PassAfterOf(input, n, last, at, length, inflate, s, next);
    var failure;
    failure, outputOffset', remaining', compressed', isaac' :=
      DoBlock(entry, length, inflate, block, output, n, last, outputOffset, remaining, compressed, isaac, s, data);
    if failure.Some? {
      return Err(failure.value), p, outputOffset, remaining, compressed, isaac, s;
    }
    s' := next.value;
    p' := at + n;
    r := Ok(last);
  }

  /**
   * One pass of the do-while loop: read the header and the block, then treat it
   * as raw or compressed. The result is whether the block was the last one.
   */
  method MiniZStep(input: Bytes, p: nat, e: Endian, entry: Entry, length: nat, inflate: Bytes -> Result<Bytes>,
                   block: array<bv8>, output: array<bv8>, outputOffset: nat, remaining: int, compressed: bool,
                   isaac: Isaac.Isaac?, ghost s: Blocks)
    returns (r: Result<bool>, p': nat, outputOffset': nat, remaining': int, compressed': bool,
             isaac': Isaac.Isaac?, ghost s': Blocks)
    requires p <= |input| && s.Valid(length)
    requires block.Length == BUFFER && block[..] == s.buffer
    requires s.Valid(length) && block != output
    requires output.Length == length && output[..] == s.output + Zeros(length - |s.output|)
    requires outputOffset == |s.output| && remaining == length - outputOffset && compressed == s.compressed
    requires isaac == null <==> compressed
    requires isaac == null ==> IsaacOf(entry.nameHashB, s.keys)
    requires isaac != null ==> isaac.Valid() && isaac.ReaderOf() == s.keys && Apart(block, output, isaac)
    modifies {block, output} + if isaac == null then {} else {isaac, isaac.state, isaac.results}
    ensures r.Err? ==> PassIs(input, p, e, length, inflate, s, Err(r.error))
    ensures r.Ok? ==> PassIs(input, p, e, length, inflate, s, Ok((s', r.value, p')))
    ensures r.Ok? ==> p < p' <= |input| && s'.Valid(length)
    ensures r.Ok? ==> block[..] == s'.buffer && output[..] == s'.output + Zeros(length - |s'.output|)
    ensures r.Ok? ==> outputOffset' == |s'.output| && remaining' == length - outputOffset' && compressed' == s'.compressed
    ensures r.Ok? ==> (isaac' == null <==> compressed')
    ensures r.Ok? && isaac' == null ==> IsaacOf(entry.nameHashB, s'.keys)
    ensures r.Ok? && isaac' != null ==> isaac'.Valid() && isaac'.ReaderOf() == s'.keys && Apart(block, output, isaac')
    ensures r.Ok? && isaac' != null ==> isaac' == isaac || (fresh(isaac') && fresh(isaac'.state) && fresh(isaac'.results))
  {
    var h := ReadBlock(input, p, e, block);
    if h.Err? {
      MiniZNextFail(input, p, e, length, inflate, s);
      return Err(h.error), p, outputOffset, remaining, compressed, isaac, s;
    }
    r, p', outputOffset', remaining', compressed', isaac', s' :=
      BlockPass(input, p, entry, length, inflate, block, output, outputOffset, remaining, compressed, isaac, s,
                h.value.0, h.value.1, h.value.2);
  }

  /**
   * The MiniZ branch of Read / ReadEntry: the do-while loop from the first block
   * at `pos`, with `inflate` standing for the raw-deflate decoder and `keys` for
   * where the generator GetISAAC gives the entry starts.
   */
  method ReadMiniZ(input: Bytes, pos: nat, e: Endian, entry: Entry, length: nat, inflate: Bytes -> Result<Bytes>,
                   ghost keys: Isaac.Reader)
    returns (r: Result<Bytes>)
    requires pos <= |input| && keys.Ready() && IsaacOf(entry.nameHashB, keys)
    ensures r == MiniZBlocks(input, pos, e, length, inflate, Blocks(Zeros(BUFFER), [], true, keys))
  {
    var output := new bv8[length](_ => 0);
    var block := new bv8[BUFFER](_ => 0);
    ghost var s := Blocks(Zeros(BUFFER), [], true, keys);
    ghost var target := MiniZBlocks(input, pos, e, length, inflate, s);
    assert output[..] == Zeros(length);
    assert block[..] == s.buffer;
    r := BlockLoop(input, pos, e, entry, length, inflate, block, output, s, target);
  }

  /** The do-while loop itself, from a zeroed block buffer and output buffer and no generator yet. */
  method BlockLoop(input: Bytes, pos: nat, e: Endian, entry: Entry, length: nat, inflate: Bytes -> Result<Bytes>,
                   block: array<bv8>, output: array<bv8>, ghost s0: Blocks, ghost target: Result<Bytes>)
    returns (r: Result<Bytes>)
    requires pos <= |input| && s0.Valid(length) && s0.compressed && s0.output == [] && IsaacOf(entry.nameHashB, s0.keys)
    requires block != output && block.Length == BUFFER && block[..] == s0.buffer
    requires output.Length == length && output[..] == Zeros(length)
    requires LoopIs(input, pos, e, length, inflate, s0, target)
    modifies block, output
    ensures r == target
  {
    var isaac: Isaac.Isaac? := null;
    var outputOffset: nat := 0;
    var remaining: int := length;
    var compressed := true;
    var p := pos;
    ghost var s := s0;
    assert output[..] == s.output + Zeros(length - |s.output|);
    while true
      invariant p <= |input| && s.Valid(length)
      invariant block[..] == s.buffer && output[..] == s.output + Zeros(length - |s.output|)
      invariant outputOffset == |s.output| && remaining == length - outputOffset && compressed == s.compressed
      invariant isaac == null <==> compressed
      invariant isaac == null ==> IsaacOf(entry.nameHashB, s.keys)
      invariant isaac != null ==> isaac.Valid() && isaac.ReaderOf() == s.keys && Apart(block, output, isaac)
      invariant isaac != null ==> fresh(isaac) && fresh(isaac.state) && fresh(isaac.results)
      invariant LoopIs(input, p, e, length, inflate, s, target)
      decreases |input| - p
    {
      ghost var p0, s1 := p, s;
      var step;
      step, p, outputOffset, remaining, compressed, isaac, s :=
        MiniZStep(input, p, e, entry, length, inflate, block, output, outputOffset, remaining, compressed, isaac, s);
      if step.Err? {
        LoopStep(input, p0, e, length, inflate, s1, Err(step.error), target);
        return Err(step.error);
      }
      LoopStep(input, p0, e, length, inflate, s1, Ok((s, step.value, p)), target);
      if step.value {
        return Ok(output[..]);
      }
    }
  }
}
