/**
 * An entry of the Antibirth "VINH" container and its Read: the entry's bytes are
 * stored in a list of chunks of at most 4048 bytes each, every byte scrambled by a
 * key that depends on the low byte of the entry's Magic and on the byte's offset in
 * the entry. Also the 32-bit FNV-style Hash32.
 */
module AntibirthEntry {
  import opened Wrappers
  import opened ByteIO
  import opened Arith

  const CHUNK_SIZE: nat := 4048
  const INITIAL_HASH32: bv32 := 0x811C_9DC5

  /**
   * An entry as the archive's walk builds it: its name hash, the offset of its first
   * chunk, its length and magic (already unmasked), and the data offset of every chunk.
   */
  datatype Entry = Entry(nameHash: bv64, offset: int, length: bv32, magic: bv32, chunkOffsets: seq<int>)
  {
    /** The Checksum accessor: the Antibirth format stores none. */
    function Checksum(): (r: Result<bv32>)
      ensures r.Err? && r.error == NotSupported
    {
      Err(NotSupported)
    }

    /** The cipher key: the low byte of Magic. */
    function Key(): (k: bv8)
      ensures k as bv32 == magic & 0xFF
    {
      (magic & 0xFF) as bv8
    }
  }

  // ---------------------------------------------------------------------------
  // The per-byte cipher

  /** The byte cast of `magic << s`: the bits of magic that stay inside a byte. */
  function ShiftedOut(magic: bv8, s: bv8): bv8
    requires s < 16
  {
    (((magic as bv32) << s) & 0xFF) as bv8
  }

  /**
   * The mask of the byte at offset `o` of an entry, in byte arithmetic: magic shifted
   * left by o % 16, cut to its low four bits, XOR o % 16, plus the low byte of o,
   * shifted left by 3, rotated left by o % 8, XOR magic.
   */
  function Mask(magic: bv8, o: nat): bv8
  {
    Spread(ShiftedOut(magic, (o % 16) as bv8) & 0xF, o) ^ magic
  }

  /** The middle of the mask computation, from the four bits of magic that survive. */
  function Spread(m0: bv8, o: nat): bv8
  {
    var m1 := m0 ^ (o % 16) as bv8;
    var m2 := m1 + (o % 0x100) as bv8;
    var m3 := m2 << 3;
    Rotl(m3, (o % 8) as bv8)
  }

  /** A byte rotated left by k < 8 bits: the bits shifted out at the top come back at the bottom. */
  function Rotl(x: bv8, k: bv8): bv8
    requires k < 8
  {
    if k == 0 then x else (x << k) | (x >> (8 - k))
  }

  /** A byte rotated right by k < 8 bits. */
  function Rotr(x: bv8, k: bv8): bv8
    requires k < 8
  {
    if k == 0 then x else (x >> k) | (x << (8 - k))
  }

  /** One byte through the cipher step: XOR the mask, rotate right by mask % 5, XOR the mask. */
  function Decrypt(b: bv8, m: bv8): bv8
  {
    var b1 := b ^ m;
    var b2 := Rotr(b1, m % 5);
    b2 ^ m
  }

  /** The inverse step, which scrambles a byte the way the stored data was scrambled. */
  function Encrypt(b: bv8, m: bv8): bv8
  {
    Rotl(b ^ m, m % 5) ^ m
  }

  /** The step undoes its inverse and the other way round. */
  lemma DecryptEncrypt(b: bv8, m: bv8)
    ensures Decrypt(Encrypt(b, m), m) == b
    ensures Encrypt(Decrypt(b, m), m) == b
  {
    DecryptUndoes(b, m);
    EncryptUndoes(b, m);
  }

  lemma DecryptUndoes(b: bv8, m: bv8)
    ensures Decrypt(Encrypt(b, m), m) == b
  {
    RightUndoesLeft(b, m, m % 5);
  }

  lemma EncryptUndoes(b: bv8, m: bv8)
    ensures Encrypt(Decrypt(b, m), m) == b
  {
    LeftUndoesRight(b, m, m % 5);
  }

  /** The step with any rotation below 5 in place of mask % 5 undoes its inverse. */
  lemma RightUndoesLeft(b: bv8, m: bv8, k: bv8)
    requires k < 5
    ensures Rotr(Rotl(b ^ m, k) ^ m ^ m, k) ^ m == b
  {
  }

  lemma LeftUndoesRight(b: bv8, m: bv8, k: bv8)
    requires k < 5
    ensures Rotl(Rotr(b ^ m, k) ^ m ^ m, k) ^ m == b
  {
  }

  lemma XorTwice(x: bv8, m: bv8)
    ensures x ^ m ^ m == x
  {
  }

  /** For a fixed mask the step is a permutation of the 256 byte values. */
  lemma DecryptPermutes(m: bv8)
    ensures forall b: bv8, c: bv8 :: Decrypt(b, m) == Decrypt(c, m) ==> b == c
    ensures forall c: bv8 :: Decrypt(Encrypt(c, m), m) == c
  {
    forall b: bv8, c: bv8 | Decrypt(b, m) == Decrypt(c, m)
      ensures b == c
    {
      DecryptEncrypt(b, m);
      DecryptEncrypt(c, m);
    }
    forall c: bv8
      ensures Decrypt(Encrypt(c, m), m) == c
    {
      DecryptEncrypt(c, m);
    }
  }

  /** From offset 4 of every 16, the shift pushes every bit of magic out of the low four. */
  lemma ShiftedOutVanishes(magic: bv8, s: bv8)
    requires 4 <= s < 16
    ensures ShiftedOut(magic, s) & 0xF == 0
  {
  }

  /** There, the mask depends on magic only through the final XOR. */
  lemma MaskLate(a: bv8, b: bv8, o: nat)
    requires o % 16 >= 4
    ensures Mask(a, o) ^ a == Mask(b, o) ^ b
  {
    ShiftedOutVanishes(a, (o % 16) as bv8);
    ShiftedOutVanishes(b, (o % 16) as bv8);
    XorTwice(Spread(0, o), a);
    XorTwice(Spread(0, o), b);
  }

  /**
   * The bytes `s` after the cipher has run over `length` bytes from `offset`: the byte
   * at index k of the entry goes through the step with the mask of offset k.
   */
  function Deciphered(s: Bytes, offset: nat, length: nat, magic: bv8): (r: Bytes)
    requires offset + length <= |s|
    ensures |r| == |s|
  {
    seq(|s|, k requires 0 <= k < |s| =>
      if offset <= k < offset + length then Decrypt(s[k], Mask(magic, k)) else s[k])
  }

  /** Scrambling every byte of `s` the way the stored data is scrambled. */
  function Enciphered(s: Bytes, magic: bv8): (r: Bytes)
    ensures |r| == |s|
  {
    seq(|s|, k requires 0 <= k < |s| => Encrypt(s[k], Mask(magic, k)))
  }

  /** Deciphering what was enciphered gives back the plain bytes. */
  lemma DecipheredEnciphered(s: Bytes, magic: bv8)
    ensures Deciphered(Enciphered(s, magic), 0, |s|, magic) == s
  {
    forall k | 0 <= k < |s|
      ensures Deciphered(Enciphered(s, magic), 0, |s|, magic)[k] == s[k]
    {
      DecryptEncrypt(s[k], Mask(magic, k));
    }
  }

  /** The cipher over [offset, offset + n) after the cipher over [0, offset) is the cipher over [0, offset + n). */
  lemma DecipheredJoin(s: Bytes, offset: nat, n: nat, magic: bv8)
    requires offset + n <= |s|
    ensures Deciphered(Deciphered(s, 0, offset, magic), offset, n, magic) == Deciphered(s, 0, offset + n, magic)
  {
  }

  /** Bogocrypt: the cipher step over `length` bytes of `buffer` from `offset`, in place. */
  method Bogocrypt(buffer: array<bv8>, offset: nat, length: nat, magic: bv8)
    requires offset + length <= buffer.Length
    modifies buffer
    ensures buffer[..] == Deciphered(old(buffer[..]), offset, length, magic)
  {
    ghost var original := buffer[..];
    var i := 0;
    var o := offset;
    while i < length
      invariant 0 <= i <= length && o == offset + i
      invariant buffer[..] == Deciphered(original, offset, i, magic)
    {
      var m := Mask(magic, o);
      buffer[o] := Decrypt(buffer[o], m);
      assert buffer[..] == Deciphered(original, offset, i + 1, magic);
      i, o := i + 1, o + 1;
    }
  }

  // ---------------------------------------------------------------------------
  // Read: the chunks into one buffer

  /** What Stream.Read hands back for `count` bytes at position p: what is there, up to count. */
  function Available(input: Bytes, p: nat, count: nat): (r: Bytes)
    ensures |r| == (if p >= |input| then 0 else Min(count, |input| - p))
    ensures p + |r| <= |input| ==> r == input[p..p + |r|]
  {
    if p >= |input| then [] else input[p..p + Min(count, |input| - p)]
  }

  /** One chunk read: `size` bytes at p, or EndOfStream when fewer are there. */
  function ReadChunk(input: Bytes, p: nat, size: nat): (r: Result<Bytes>)
    ensures r.Ok? <==> size == 0 || p + size <= |input|
    ensures r.Ok? ==> |r.value| == size
    ensures r.Err? ==> r.error == EndOfStream
  {
    var got := Available(input, p, size);
    if |got| != size then Err(EndOfStream) else Ok(got)
  }

  /**
   * The stored bytes of the chunks: chunk i holds the next min(4048, remaining) bytes at
   * base + its offset. A chunk whose position is negative is ArgumentOutOfRange.
   */
  function ChunkData(input: Bytes, base: nat, chunks: seq<int>, remaining: nat): (r: Result<Bytes>)
    ensures r.Ok? ==> |r.value| == Min(remaining, CHUNK_SIZE * |chunks|)
    ensures r.Err? ==> r.error == ArgumentOutOfRange || r.error == EndOfStream
    decreases |chunks|
  {
    if chunks == [] then Ok([])
    else
      var size := Min(CHUNK_SIZE, remaining);
      var p := base + chunks[0];
      if p < 0 then Err(ArgumentOutOfRange)
      else
        var chunk :- ReadChunk(input, p, size);
        var rest :- ChunkData(input, base, chunks[1..], remaining - size);
        Ok(chunk + rest)
  }

  /** The entry's output: its stored bytes deciphered, then zeros up to its length. */
  function Assembled(data: Bytes, length: nat, magic: bv8): (r: Bytes)
    requires |data| <= length
    ensures |r| == length
  {
    Deciphered(data + Zeros(length - |data|), 0, |data|, magic)
  }

  /** What Read returns for entry `e` of an archive that starts at `base`. */
  function EntryRead(input: Bytes, base: nat, e: Entry): (r: Result<Bytes>)
    ensures r.Ok? ==> |r.value| == e.length as int
    ensures r.Err? ==> r.error == ArgumentOutOfRange || r.error == EndOfStream
  {
    var data :- ChunkData(input, base, e.chunkOffsets, e.length as int);
    Ok(Assembled(data, e.length as int, e.Key()))
  }

  /**
   * Byte k of a read entry is the stored byte k deciphered with the mask of k when a
   * chunk covers it, and zero when none does.
   */
  lemma EntryReadBytes(input: Bytes, base: nat, e: Entry)
    requires EntryRead(input, base, e).Ok?
    ensures var data := ChunkData(input, base, e.chunkOffsets, e.length as int).value;
      var out := EntryRead(input, base, e).value;
      |data| == Min(e.length as int, CHUNK_SIZE * |e.chunkOffsets|) &&
      (forall k :: 0 <= k < |data| ==> out[k] == Decrypt(data[k], Mask(e.Key(), k))) &&
      (forall k :: |data| <= k < |out| ==> out[k] == 0)
  {
  }

  /** Chunks that hold an entry's bytes scrambled, enough of them to cover it, read back as those bytes. */
  lemma EntryReadStored(input: Bytes, base: nat, e: Entry, plain: Bytes)
    requires |plain| == e.length as int
    requires ChunkData(input, base, e.chunkOffsets, |plain|) == Ok(Enciphered(plain, e.Key()))
    ensures EntryRead(input, base, e) == Ok(plain)
  {
    AssembledEnciphered(plain, e.Key());
  }

  lemma AssembledEnciphered(plain: Bytes, magic: bv8)
    ensures Assembled(Enciphered(plain, magic), |plain|, magic) == plain
  {
    var data := Enciphered(plain, magic);
    assert data + Zeros(0) == data;
    DecipheredEnciphered(plain, magic);
  }

  /** Stream.Read into `buffer` at `offset`: it copies what is there, up to count, and says how much. */
  method StreamRead(input: Bytes, p: nat, buffer: array<bv8>, offset: nat, count: nat) returns (read: nat)
    requires offset + count <= buffer.Length
    modifies buffer
    ensures read == |Available(input, p, count)|
    ensures buffer[..] == old(buffer[..offset]) + Available(input, p, count) + old(buffer[offset + read..])
  {
    read := if p >= |input| then 0 else Min(count, |input| - p);
    forall k | offset <= k < offset + read {
      buffer[k] := input[p + k - offset];
    }
    assert buffer[..] == old(buffer[..offset]) + Available(input, p, count) + old(buffer[offset + read..]);
  }

  /** A chunk read into the zero tail of the buffer extends the stored bytes read so far. */
  lemma Staged(data: Bytes, chunk: Bytes, length: nat, magic: bv8)
    requires |data| + |chunk| <= length
    ensures var before := Deciphered(data + Zeros(length - |data|), 0, |data|, magic);
      before[..|data|] + chunk + before[|data| + |chunk|..]
        == Deciphered(data + chunk + Zeros(length - |data| - |chunk|), 0, |data|, magic)
  {
  }

  /**
   * ArchiveEntry.Read: a zeroed buffer of Length bytes; for each chunk offset in turn,
   * a seek, a read of min(4048, remaining) bytes at the running offset o, and the
   * cipher over them with o counting on from chunk to chunk.
   */
  method Read(input: Bytes, base: nat, entry: Entry) returns (r: Result<Bytes>)
    ensures r == EntryRead(input, base, entry)
  {
    var length := entry.length as int;
    var buffer := new bv8[length](_ => 0);
    var magic := (entry.magic & 0xFF) as bv8;
    var chunks := entry.chunkOffsets;
    ghost var target := ChunkData(input, base, chunks, length);
    var remaining: nat := length;
    var o := 0;
    ghost var data: Bytes := [];
    ReadStart(input, base, chunks, length, buffer[..], magic);
    for i := 0 to |chunks|
      invariant o == |data| && remaining == length - o && buffer.Length == length
      invariant Pending(input, base, chunks[i..], remaining, target, data)
      invariant Holds(buffer[..], data, magic)
    {
      var p := base + chunks[i];
      ChunkAhead(input, base, chunks, i, remaining, target, data);
      if p < 0 {
        return Err(ArgumentOutOfRange);
      }
      var chunkSize := Min(CHUNK_SIZE, remaining);
      var read;
      ghost var chunk;
      read, chunk := ReadDecrypt(input, p, buffer, o, chunkSize, magic, data);
      if read != chunkSize {
        return Err(EndOfStream);
      }
      data := data + chunk;
      o := o + chunkSize;
      remaining := remaining - chunkSize;
    }
    ReadDone(input, base, entry, chunks[|chunks|..], remaining, target, data, buffer[..]);
    return Ok(buffer[..]);
  }

  /** `buffer` holds the stored bytes `data` deciphered, then zeros. */
  ghost predicate Holds(buffer: Bytes, data: Bytes, magic: bv8)
  {
    |data| <= |buffer| && buffer == Assembled(data, |buffer|, magic)
  }

  /** The whole read is `data` in front of what the chunks `rest` still hold. */
  ghost predicate Pending(input: Bytes, base: nat, rest: seq<int>, remaining: nat, target: Result<Bytes>, data: Bytes)
  {
    forall q: nat | q == remaining :: target == Prefixed(data, ChunkData(input, base, rest, q))
  }

  lemma ReadStart(input: Bytes, base: nat, chunks: seq<int>, length: nat, buffer: Bytes, magic: bv8)
    requires buffer == Zeros(length)
    ensures Pending(input, base, chunks[0..], length, ChunkData(input, base, chunks, length), [])
    ensures Holds(buffer, [], magic)
  {
    assert chunks[0..] == chunks;
    PrefixedNone(ChunkData(input, base, chunks, length));
    assert [] + Zeros(length) == Zeros(length);
  }

  /** The next chunk: a negative position or a short read ends the whole read with that error; otherwise its bytes join `data`. */
  lemma ChunkAhead(input: Bytes, base: nat, chunks: seq<int>, i: nat, remaining: nat, target: Result<Bytes>, data: Bytes)
    requires i < |chunks| && Pending(input, base, chunks[i..], remaining, target, data)
    ensures base + chunks[i] < 0 ==> target == Err(ArgumentOutOfRange)
    ensures base + chunks[i] >= 0 ==>
      var size := Min(CHUNK_SIZE, remaining);
      var c := ReadChunk(input, base + chunks[i], size);
      (c.Err? ==> target == Err(EndOfStream)) &&
      (c.Ok? ==> Pending(input, base, chunks[i + 1..], remaining - size, target, data + c.value))
  {
    assert target == Prefixed(data, ChunkData(input, base, chunks[i..], remaining));
    assert chunks[i..][1..] == chunks[i + 1..];
    var size := Min(CHUNK_SIZE, remaining);
    if base + chunks[i] >= 0 {
      var c := ReadChunk(input, base + chunks[i], size);
      if c.Ok? {
        PrefixedJoin(data, c.value, ChunkData(input, base, chunks[i + 1..], remaining - size));
      }
    }
  }

  lemma ReadDone(input: Bytes, base: nat, entry: Entry, rest: seq<int>, remaining: nat, target: Result<Bytes>, data: Bytes, buffer: Bytes)
    requires rest == [] && target == ChunkData(input, base, entry.chunkOffsets, entry.length as int)
    requires Pending(input, base, rest, remaining, target, data)
    requires Holds(buffer, data, (entry.magic & 0xFF) as bv8) && |buffer| == entry.length as int
    ensures EntryRead(input, base, entry) == Ok(buffer)
  {
    assert target == Prefixed(data, ChunkData(input, base, rest, remaining));
    assert data + [] == data;
  }

  /** One chunk: Stream.Read into the buffer at o, then, when the read was whole, the cipher over it. */
  method ReadDecrypt(input: Bytes, p: nat, buffer: array<bv8>, o: nat, size: nat, magic: bv8, ghost data: Bytes)
    returns (read: nat, ghost chunk: Bytes)
    requires o == |data| && o + size <= buffer.Length && Holds(buffer[..], data, magic)
    modifies buffer
    ensures read == size <==> ReadChunk(input, p, size).Ok?
    ensures read == size ==> chunk == ReadChunk(input, p, size).value && Holds(buffer[..], data + chunk, magic)
  {
    ghost var before := buffer[..];
    read := StreamRead(input, p, buffer, o, size);
    chunk := Available(input, p, size);
    if read == size {
      ghost var staged := buffer[..];
      Bogocrypt(buffer, o, size, magic);
      StagedHolds(before, data, chunk, staged, buffer[..], magic);
    }
  }

  /** The chunk copied into the zero tail and deciphered there: the buffer holds `data + chunk`. */
  lemma StagedHolds(before: Bytes, data: Bytes, chunk: Bytes, staged: Bytes, after: Bytes, magic: bv8)
    requires Holds(before, data, magic) && |data| + |chunk| <= |before|
    requires staged == before[..|data|] + chunk + before[|data| + |chunk|..]
    requires after == Deciphered(staged, |data|, |chunk|, magic)
    ensures Holds(after, data + chunk, magic)
  {
    var length := |before|;
    Staged(data, chunk, length, magic);
    var o, size := |data|, |chunk|;
    DecipheredJoin(data + chunk + Zeros(length - o - size), o, size, magic);
    assert data + chunk + Zeros(length - o - size) == (data + chunk) + Zeros(length - |data + chunk|);
  }

  lemma PrefixedJoin(data: Bytes, chunk: Bytes, rest: Result<Bytes>)
    ensures Prefixed(data, Prefixed(chunk, rest)) == Prefixed(data + chunk, rest)
  {
    if rest.Ok? {
      assert data + (chunk + rest.value) == data + chunk + rest.value;
    }
  }

  // ---------------------------------------------------------------------------
  // Hash32

  /** One Hash32 step: times 0x1000193, then XOR the byte. */
  function Hash32Step(h: bv32, b: bv8): bv32
  {
    (h * 0x100_0193) ^ b as bv32
  }

  /** The fold of Hash32Step over `s` from `h`, first byte first. */
  function Hash32Fold(h: bv32, s: Bytes): bv32
    decreases |s|
  {
    if s == [] then h else Hash32Fold(Hash32Step(h, s[0]), s[1..])
  }

  /** The starting value: the given hash XOR the count as a uint, shifted right by 16. */
  function Hash32Start(hash: bv32, count: bv32): (h: bv32)
    ensures h < 0x1_0000
  {
    (hash ^ count) >> 16
  }

  /** `(uint)count`: a C# int reinterpreted as 32 bits. */
  function CountBits(count: int): bv32
    requires -0x8000_0000 <= count < 0x8000_0000
  {
    if count >= 0 then count as bv32 else (count + 0x1_0000_0000) as bv32
  }

  /**
   * Hash32(buffer, offset, count, hash): null is ArgumentNull; the bytes offset ..
   * offset + count - 1 are hashed, and one of them outside the array is IndexOutOfRange.
   * The loop bound offset + count is a C# int: when it wraps past 2^31 - 1 it is
   * negative and no byte is hashed; when it wraps below -2^31 it is non-negative, the
   * loop starts at the negative offset and its first read is IndexOutOfRange.
   */
  function Hash32(buffer: Option<Bytes>, offset: int, count: int, hash: bv32): (r: Result<bv32>)
    requires -0x8000_0000 <= offset < 0x8000_0000 && -0x8000_0000 <= count < 0x8000_0000
    ensures buffer.None? ==> r == Err(ArgumentNull)
    ensures buffer.Some? && offset + count < -0x8000_0000 ==> r == Err(IndexOutOfRange)
    ensures buffer.Some? && offset + count >= -0x8000_0000 && (count <= 0 || offset + count >= 0x8000_0000) ==>
      r == Ok(Hash32Start(hash, CountBits(count)))
    ensures buffer.Some? && 0 < count && offset + count < 0x8000_0000 ==>
      (r.Ok? <==> 0 <= offset && offset + count <= |buffer.value|)
    ensures r.Err? && buffer.Some? ==> r.error == IndexOutOfRange
  {
    match buffer
    case None => Err(ArgumentNull)
    case Some(bytes) =>
      var h := Hash32Start(hash, CountBits(count));
      if offset + count < -0x8000_0000 then Err(IndexOutOfRange)
      else if count <= 0 || offset + count >= 0x8000_0000 then Ok(h)
      else if offset < 0 || offset + count > |bytes| then Err(IndexOutOfRange)
      else Ok(Hash32Fold(h, bytes[offset..offset + count]))
  }

  /** Hash32 of a whole byte string from the initial hash. */
  function Hash32Of(bytes: Bytes): (r: bv32)
    requires |bytes| < 0x8000_0000
  {
    Hash32(Some(bytes), 0, |bytes|, INITIAL_HASH32).value
  }

  /** The empty string hashes to the initial hash's upper half, 0x811C. */
  lemma Hash32Empty()
    ensures Hash32Of([]) == 0x811C
  {
  }

  /** Hashing a concatenation is hashing the second part from the hash of the first. */
  lemma {:induction false} Hash32FoldJoin(h: bv32, s: Bytes, t: Bytes)
    ensures Hash32Fold(h, s + t) == Hash32Fold(Hash32Fold(h, s), t)
    decreases |s|
  {
    if s == [] {
      assert s + t == t;
    } else {
      assert (s + t)[0] == s[0] && (s + t)[1..] == s[1..] + t;
      Hash32FoldJoin(Hash32Step(h, s[0]), s[1..], t);
    }
  }

  /** Two strings of one length that differ only in their last byte hash differently. */
  lemma Hash32LastByte(s: Bytes, b: bv8, c: bv8, h: bv32)
    requires Hash32Fold(h, s + [b]) == Hash32Fold(h, s + [c])
    ensures b == c
  {
    Hash32FoldJoin(h, s, [b]);
    Hash32FoldJoin(h, s, [c]);
  }

  /** Hash32 of a byte string is the fold over it from a start below 2^16. */
  lemma Hash32OfFold(bytes: Bytes)
    requires |bytes| < 0x8000_0000
    ensures Hash32Of(bytes) == Hash32Fold(Hash32Start(INITIAL_HASH32, |bytes| as bv32), bytes)
  {
    if |bytes| > 0 {
      assert bytes[0..|bytes|] == bytes;
    }
  }
}
