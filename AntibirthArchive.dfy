/**
 * ArchiveFile of the Antibirth "VINH" container. After the four-byte signature comes
 * the offset of the first directory-or-file record; every record names the next one,
 * and every file record names the first of its chunks, each chunk naming the next.
 * All these offsets are stored XOR a fixed constant, count from the archive's start,
 * and a decoded offset of -1 ends a list. Nothing checks for cycles, so the walks here
 * take a `fuel` bound: the number of links they may follow before giving up.
 */
module AntibirthArchive {
  import opened Wrappers
  import opened ByteIO
  import opened AntibirthEntry
  import RebirthRead
  import opened Bogocrypt

  /** 'VINH' read as a little-endian u32. */
  const SIGNATURE: bv32 := 0x484E_4956

  // The masks of the stored fields. The 64-bit masks are also given as their
  // little-endian bytes: XOR of the stored bytes with these is XOR of the u64 words.
  const FIRST_ENTRY_OFFSET_XOR: bv64 := 0x9FA5_7C6D_7AF2_1DA5
  const NEXT_ENTRY_OFFSET_XOR: bv64 := 0x0E3B_B675_A5B4_D200
  const ENTRY_DATA_SIZE_XOR: bv32 := 0x64E7_9669
  const ENTRY_DATA_MAGIC_XOR: bv32 := 0xF885_F00D
  const FIRST_CHUNK_OFFSET_XOR: bv64 := 0xC173_8B4E_8C24_49B1
  const NEXT_CHUNK_OFFSET_XOR: bv64 := 0x02BA_851E_C27B_F710

  const FIRST_ENTRY_MASK: Bytes := [0xA5, 0x1D, 0xF2, 0x7A, 0x6D, 0x7C, 0xA5, 0x9F]
  const NEXT_ENTRY_MASK: Bytes := [0x00, 0xD2, 0xB4, 0xA5, 0x75, 0xB6, 0x3B, 0x0E]
  const FIRST_CHUNK_MASK: Bytes := [0xB1, 0x49, 0x24, 0x8C, 0x4E, 0x8B, 0x73, 0xC1]
  const NEXT_CHUNK_MASK: Bytes := [0x10, 0xF7, 0x7B, 0xC2, 0x1E, 0x85, 0xBA, 0x02]

  lemma MaskBytes()
    ensures EncodeU64(FIRST_ENTRY_OFFSET_XOR) == FIRST_ENTRY_MASK
    ensures EncodeU64(NEXT_ENTRY_OFFSET_XOR) == NEXT_ENTRY_MASK
    ensures EncodeU64(FIRST_CHUNK_OFFSET_XOR) == FIRST_CHUNK_MASK
    ensures EncodeU64(NEXT_CHUNK_OFFSET_XOR) == NEXT_CHUNK_MASK
  {
  }

  /** The offset of a chunk's data past the chunk's own position: its next-chunk link. */
  const CHUNK_HEADER_SIZE: nat := 8

  const TWO_63: int := 0x8000_0000_0000_0000
  const TWO_64: int := 0x1_0000_0000_0000_0000

  lemma SpanEight()
    ensures Span(8) == TWO_64
  {
  }

  /** A long: the range of a C# `long`. */
  predicate IsLong(n: int) {
    -TWO_63 <= n < TWO_63
  }

  /** The C# cast `(long)x` of a u64: two's complement. */
  function Signed(x: nat): (n: int)
    requires x < TWO_64
    ensures IsLong(n)
  {
    if x < TWO_63 then x else x - TWO_64
  }

  /** A long back as the u64 it is stored as. */
  function Unsigned(n: int): (x: nat)
    requires IsLong(n)
    ensures x < TWO_64 && Signed(x) == n
  {
    if n >= 0 then n else n + TWO_64
  }

  /** An offset field: the eight stored bytes XOR the mask's, as a long. */
  function Deobfuscated(stored: Bytes, mask: Bytes): (n: int)
    requires |stored| == 8 && |mask| == 8
    ensures IsLong(n)
  {
    SpanEight();
    Signed(DecodeLe(XorBytes(stored, mask)))
  }

  /** The eight bytes that store offset `n` under `mask`. */
  function Obfuscated(n: int, mask: Bytes): (r: Bytes)
    requires IsLong(n) && |mask| == 8
    ensures |r| == 8
  {
    XorBytes(EncodeLe(Unsigned(n), 8), mask)
  }

  lemma DeobfuscateObfuscated(n: int, mask: Bytes)
    requires IsLong(n) && |mask| == 8
    ensures Deobfuscated(Obfuscated(n, mask), mask) == n
  {
    Bogocrypt.XorTwice(EncodeLe(Unsigned(n), 8), mask);
    SpanEight();
    DecodeEncodeLe(Unsigned(n), 8);
  }

  /** An offset field read at p: eight bytes, unmasked. */
  function ReadLink(input: Bytes, p: nat, mask: Bytes): (r: Result<(int, nat)>)
    requires |mask| == 8
    ensures r.Ok? <==> p + 8 <= |input|
    ensures r.Ok? ==> r.value.1 == p + 8 && IsLong(r.value.0)
    ensures r.Err? ==> r.error == EndOfStream
  {
    var b :- ReadBytes(input, p, 8);
    Ok((Deobfuscated(b.0, mask), b.1))
  }

  /** Offset `n` stored under `mask` at p; the one-point range keeps the bytes out of sight until asked for. */
  ghost predicate LinkAt(s: Bytes, p: nat, n: int, mask: Bytes)
    requires IsLong(n) && |mask| == 8
  {
    forall q: nat | q == p :: At(s, q, Obfuscated(n, mask))
  }

  lemma ReadLinkAt(s: Bytes, p: nat, n: int, mask: Bytes)
    requires IsLong(n) && |mask| == 8 && LinkAt(s, p, n, mask)
    ensures ReadLink(s, p, mask) == Ok((n, p + 8))
  {
    assert At(s, p, Obfuscated(n, mask));
    ReadBytesAt(s, p, Obfuscated(n, mask));
    DeobfuscateObfuscated(n, mask);
  }

  lemma XorTwice32(x: bv32, k: bv32)
    ensures x ^ k ^ k == x
  {
  }

  // ---------------------------------------------------------------------------
  // Records

  /** A record of the entry list, its masked fields already unmasked. */
  datatype Node =
    | Directory(nameHash: bv64)
    | File(nameHash: bv64, size: bv32, magic: bv32, firstChunk: int)

  /**
   * The record at stream position p and the offset of the next: the is-file byte,
   * 16 bytes skipped, the next-record offset, the name hash; a file then has its
   * size, its magic and its first chunk's offset. A directory's trailing four bytes
   * are skipped, not read, so they may lie past the end of the stream.
   */
  function ReadNode(input: Bytes, p: nat): (r: Result<(Node, int)>)
    ensures r.Ok? && r.value.0.Directory? ==> p + 33 <= |input|
    ensures r.Ok? && r.value.0.File? ==> p + 49 <= |input|
    ensures r.Ok? <==> p + 33 <= |input| && (input[p] != 0 ==> p + 49 <= |input|)
    ensures r.Err? ==> r.error == EndOfStream
  {
    var isFile :- ReadBool(input, p);
    var next :- ReadLink(input, p + 17, NEXT_ENTRY_MASK);
    var hash :- ReadU64(input, next.1);
    if !isFile.0 then Ok((Directory(hash.0), next.0))
    else
      var size :- ReadU32(input, hash.1, Little);
      var magic :- ReadU32(input, size.1, Little);
      var chunk :- ReadLink(input, magic.1, FIRST_CHUNK_MASK);
      Ok((File(hash.0, size.0 ^ ENTRY_DATA_SIZE_XOR, magic.0 ^ ENTRY_DATA_MAGIC_XOR, chunk.0), next.0))
  }

  // ---------------------------------------------------------------------------
  // The chunk walk

  /**
   * The data offsets of the chunks from `chunk` on: chunk + 8 for each, in list order,
   * until a decoded next-chunk offset of -1. A chunk whose stream position is negative
   * is ArgumentOutOfRange; a link cut short by the end of the stream is EndOfStream.
   */
  function WalkChunks(input: Bytes, base: nat, chunk: int, fuel: nat): (r: Result<seq<int>>)
    ensures r.Ok? ==> |r.value| <= fuel
    ensures chunk == -1 ==> r == Ok([])
    ensures chunk != -1 && r.Ok? ==> |r.value| > 0 && r.value[0] == chunk + CHUNK_HEADER_SIZE
    decreases fuel
  {
    if chunk == -1 then Ok([])
    else if fuel == 0 then Err(FuelExhausted)
    else if base + chunk < 0 then Err(ArgumentOutOfRange)
    else
      var next :- ReadLink(input, base + chunk, NEXT_CHUNK_MASK);
      var rest :- WalkChunks(input, base, next.0, fuel - 1);
      Ok([chunk + CHUNK_HEADER_SIZE] + rest)
  }

  // ---------------------------------------------------------------------------
  // The entry walk

  /** What a walk leaves: the entries added, and the exception that stopped it, if any. */
  datatype Walk = Walk(entries: seq<Entry>, failure: Option<Error>)

  /** The entry that a file record becomes, with its chunk list. */
  function FileEntry(node: Node, chunks: seq<int>): (e: Entry)
    requires node.File?
    ensures e.nameHash == node.nameHash && e.offset == node.firstChunk && e.chunkOffsets == chunks
    ensures e.length == node.size && e.magic == node.magic
  {
    Entry(node.nameHash, node.firstChunk, node.size, node.magic, chunks)
  }

  /** An entry in front of the rest of a walk. */
  function Prepend(e: Entry, w: Walk): (r: Walk)
    ensures r.entries == [e] + w.entries && r.failure == w.failure
  {
    Walk([e] + w.entries, w.failure)
  }

  /**
   * The walk from record `offset` on: until a decoded next-record offset of -1, each
   * record is read; a directory adds nothing, a file adds one entry after its chunk
   * walk. A failure keeps the entries added before it. The entry walk may follow
   * `left` more links, every chunk walk `limit`.
   */
  function WalkEntries(input: Bytes, base: nat, offset: int, limit: nat, left: nat): (w: Walk)
    ensures offset == -1 ==> w == Walk([], None)
    ensures |w.entries| <= left
    decreases left
  {
    if offset == -1 then Walk([], None)
    else if left == 0 then Walk([], Some(FuelExhausted))
    else if base + offset < 0 then Walk([], Some(ArgumentOutOfRange))
    else
      match ReadNode(input, base + offset)
      case Err(e) => Walk([], Some(e))
      case Ok((node, next)) =>
        if node.Directory? then WalkEntries(input, base, next, limit, left - 1)
        else
          match WalkChunks(input, base, node.firstChunk, limit)
          case Err(e) => Walk([], Some(e))
          case Ok(chunks) => Prepend(FileEntry(node, chunks), WalkEntries(input, base, next, limit, left - 1))
  }

  /** IsValid: the first u32 is 'VINH'; a stream too short for it is EndOfStream. */
  function IsValid(input: Bytes, base: nat): (r: Result<bool>)
    ensures r.Ok? <==> base + 4 <= |input|
    ensures r.Ok? ==> (r.value <==> input[base..base + 4] == EncodeU32(SIGNATURE, Little))
  {
    var magic :- ReadU32(input, base, Little);
    LeU32Injective(input[base], input[base + 1], input[base + 2], input[base + 3]);
    Ok(magic.0 == SIGNATURE)
  }

  // ---------------------------------------------------------------------------
  // Laid out as the walks expect

  /** The chunks at offsets `cs` are linked in order, the last one to -1. */
  ghost predicate ChunkList(input: Bytes, base: nat, cs: seq<int>)
  {
    forall i :: 0 <= i < |cs| ==> ChunkLinked(input, base, cs, i)
  }

  /** Chunk i of `cs` is at a stream position and stores a link to chunk i + 1, or -1 for the last. */
  ghost predicate ChunkLinked(input: Bytes, base: nat, cs: seq<int>, i: nat)
    requires i < |cs|
  {
    cs[i] != -1 && IsLong(cs[i]) && base + cs[i] >= 0 &&
    var next := if i + 1 < |cs| then cs[i + 1] else -1;
    IsLong(next) && LinkAt(input, base + cs[i], next, NEXT_CHUNK_MASK)
  }

  /** The data offsets of a chunk list: each chunk's offset plus 8. */
  function DataOffsets(cs: seq<int>): (r: seq<int>)
    ensures |r| == |cs| && forall i :: 0 <= i < |cs| ==> r[i] == cs[i] + CHUNK_HEADER_SIZE
  {
    if cs == [] then [] else [cs[0] + CHUNK_HEADER_SIZE] + DataOffsets(cs[1..])
  }

  /** Chunks linked in order are walked in that order, one data offset each. */
  lemma WalkChunkList(input: Bytes, base: nat, cs: seq<int>, fuel: nat)
    requires ChunkList(input, base, cs) && |cs| <= fuel
    ensures WalkChunks(input, base, First(cs), fuel) == Ok(DataOffsets(cs))
  {
    ChunksWalked(input, base, cs, fuel);
    assert ChunksAre(input, base, First(cs), fuel, Ok(DataOffsets(cs)));
  }

  /** The first chunk of a list, or -1 for none. */
  function First(cs: seq<int>): int
  {
    if cs == [] then -1 else cs[0]
  }

  /** The chunk walk from `chunk` gives `r`; the one-point range keeps the walk folded. */
  ghost predicate ChunksAre(input: Bytes, base: nat, chunk: int, fuel: nat, r: Result<seq<int>>)
  {
    forall f: nat | f == fuel :: WalkChunks(input, base, chunk, f) == r
  }

  lemma {:induction false} ChunksWalked(input: Bytes, base: nat, cs: seq<int>, fuel: nat)
    requires ChunkList(input, base, cs) && |cs| <= fuel
    ensures ChunksAre(input, base, First(cs), fuel, Ok(DataOffsets(cs)))
    decreases |cs|
  {
    if cs == [] {
      ChunksEnd(input, base, fuel);
    } else {
      assert ChunkLinked(input, base, cs, 0);
      ChunkListTail(input, base, cs);
      ChunksWalked(input, base, cs[1..], fuel - 1);
      ChunksStep(input, base, cs, fuel, Ok(DataOffsets(cs[1..])));
      assert Prefixed([cs[0] + CHUNK_HEADER_SIZE], Ok(DataOffsets(cs[1..]))) == Ok(DataOffsets(cs));
    }
  }

  lemma ChunksEnd(input: Bytes, base: nat, fuel: nat)
    ensures ChunksAre(input, base, -1, fuel, Ok([]))
  {
  }

  lemma ChunkListTail(input: Bytes, base: nat, cs: seq<int>)
    requires ChunkList(input, base, cs) && cs != []
    ensures ChunkList(input, base, cs[1..])
  {
    forall i | 0 <= i < |cs| - 1
      ensures ChunkLinked(input, base, cs[1..], i)
    {
      assert ChunkLinked(input, base, cs, i + 1);
    }
  }

  /** The first chunk of a linked list: its data offset, then the walk from the second. */
  lemma ChunksStep(input: Bytes, base: nat, cs: seq<int>, fuel: nat, rest: Result<seq<int>>)
    requires cs != [] && fuel > 0 && ChunkLinked(input, base, cs, 0)
    requires ChunksAre(input, base, First(cs[1..]), fuel - 1, rest)
    ensures ChunksAre(input, base, cs[0], fuel, Prefixed([cs[0] + CHUNK_HEADER_SIZE], rest))
  {
    var next := First(cs[1..]);
    assert next == if 1 < |cs| then cs[1] else -1;
    ReadLinkAt(input, base + cs[0], next, NEXT_CHUNK_MASK);
    assert WalkChunks(input, base, next, fuel - 1) == rest;
  }

  lemma ReadU64At(s: Bytes, p: nat, x: bv64)
    requires At(s, p, EncodeU64(x))
    ensures ReadU64(s, p) == Ok((x, p + 8))
  {
    ReadBytesAt(s, p, EncodeU64(x));
    DecodeEncodeU64(x);
  }

  /** The bytes of a record that links to `next`: the 16 skipped bytes and a directory's 4 are zero here. */
  function EncodeNode(node: Node, next: int): (r: Bytes)
    requires IsLong(next)
    requires node.File? ==> IsLong(node.firstChunk)
    ensures |r| == (if node.File? then 49 else 37)
  {
    NodeHead(node, next) + NodeTail(node)
  }

  /** Up to the name hash: the is-file byte, 16 bytes, the next-record link, the name hash. */
  function NodeHead(node: Node, next: int): (r: Bytes)
    requires IsLong(next)
    ensures |r| == 33
  {
    [if node.File? then 1 else 0] + Zeros(16) + Obfuscated(next, NEXT_ENTRY_MASK) + EncodeU64(node.nameHash)
  }

  /** After the name hash: a directory's 4 bytes, or a file's size, magic and first-chunk link. */
  function NodeTail(node: Node): (r: Bytes)
    requires node.File? ==> IsLong(node.firstChunk)
    ensures |r| == (if node.File? then 16 else 4)
  {
    match node
    case Directory(_) => Zeros(4)
    case File(_, size, magic, first) =>
      EncodeU32(size ^ ENTRY_DATA_SIZE_XOR, Little) + EncodeU32(magic ^ ENTRY_DATA_MAGIC_XOR, Little)
        + Obfuscated(first, FIRST_CHUNK_MASK)
  }

  /** A record laid out as EncodeNode writes it reads back as that record and link. */
  lemma ReadNodeAt(s: Bytes, p: nat, node: Node, next: int)
    requires IsLong(next)
    requires node.File? ==> IsLong(node.firstChunk)
    requires At(s, p, EncodeNode(node, next))
    ensures ReadNode(s, p) == Ok((node, next))
  {
    AtSplit(s, p, NodeHead(node, next), NodeTail(node));
    ReadHeadAt(s, p, node, next);
    if node.File? {
      ReadTailAt(s, p + 33, node);
      FileFields(s, p, node, next);
    } else {
      DirectoryFields(s, p, node, next);
    }
  }

  lemma ReadHeadAt(s: Bytes, p: nat, node: Node, next: int)
    requires IsLong(next) && At(s, p, NodeHead(node, next))
    ensures ReadBool(s, p) == Ok((node.File?, p + 1))
    ensures ReadLink(s, p + 17, NEXT_ENTRY_MASK) == Ok((next, p + 25))
    ensures ReadU64(s, p + 25) == Ok((node.nameHash, p + 33))
  {
    var flag: bv8 := if node.File? then 1 else 0;
    var w0, w1 := Obfuscated(next, NEXT_ENTRY_MASK), EncodeU64(node.nameHash);
    AtSplit(s, p, [flag] + Zeros(16) + w0, w1);
    AtSplit(s, p, [flag] + Zeros(16), w0);
    AtSplit(s, p, [flag], Zeros(16));
    ReadU8At(s, p, flag);
    assert LinkAt(s, p + 17, next, NEXT_ENTRY_MASK);
    ReadLinkAt(s, p + 17, next, NEXT_ENTRY_MASK);
    ReadU64At(s, p + 25, node.nameHash);
  }

  lemma ReadTailAt(s: Bytes, p: nat, node: Node)
    requires node.File? && IsLong(node.firstChunk) && At(s, p, NodeTail(node))
    ensures ReadU32(s, p, Little) == Ok((node.size ^ ENTRY_DATA_SIZE_XOR, p + 4))
    ensures ReadU32(s, p + 4, Little) == Ok((node.magic ^ ENTRY_DATA_MAGIC_XOR, p + 8))
    ensures ReadLink(s, p + 8, FIRST_CHUNK_MASK) == Ok((node.firstChunk, p + 16))
  {
    var u0, u1 := EncodeU32(node.size ^ ENTRY_DATA_SIZE_XOR, Little), EncodeU32(node.magic ^ ENTRY_DATA_MAGIC_XOR, Little);
    var u2 := Obfuscated(node.firstChunk, FIRST_CHUNK_MASK);
    AtSplit(s, p, u0 + u1, u2);
    AtSplit(s, p, u0, u1);
    ReadU32At(s, p, node.size ^ ENTRY_DATA_SIZE_XOR, Little);
    ReadU32At(s, p + 4, node.magic ^ ENTRY_DATA_MAGIC_XOR, Little);
    assert LinkAt(s, p + 8, node.firstChunk, FIRST_CHUNK_MASK);
    ReadLinkAt(s, p + 8, node.firstChunk, FIRST_CHUNK_MASK);
  }

  lemma DirectoryFields(s: Bytes, p: nat, node: Node, next: int)
    requires node.Directory?
    requires ReadBool(s, p) == Ok((false, p + 1))
    requires ReadLink(s, p + 17, NEXT_ENTRY_MASK) == Ok((next, p + 25))
    requires ReadU64(s, p + 25) == Ok((node.nameHash, p + 33))
    ensures ReadNode(s, p) == Ok((node, next))
  {
  }

  lemma FileFields(s: Bytes, p: nat, node: Node, next: int)
    requires node.File?
    requires ReadBool(s, p) == Ok((true, p + 1))
    requires ReadLink(s, p + 17, NEXT_ENTRY_MASK) == Ok((next, p + 25))
    requires ReadU64(s, p + 25) == Ok((node.nameHash, p + 33))
    requires ReadU32(s, p + 33, Little) == Ok((node.size ^ ENTRY_DATA_SIZE_XOR, p + 37))
    requires ReadU32(s, p + 37, Little) == Ok((node.magic ^ ENTRY_DATA_MAGIC_XOR, p + 41))
    requires ReadLink(s, p + 41, FIRST_CHUNK_MASK) == Ok((node.firstChunk, p + 49))
    ensures ReadNode(s, p) == Ok((node, next))
  {
    XorTwice32(node.size, ENTRY_DATA_SIZE_XOR);
    XorTwice32(node.magic, ENTRY_DATA_MAGIC_XOR);
  }

  /**
   * The records `nodes` sit at offsets `offsets`, linked in order, the last one to -1,
   * and every file's chunk list is laid out as `chunks` says.
   */
  ghost predicate NodeList(input: Bytes, base: nat, offsets: seq<int>, nodes: seq<Node>, chunks: seq<seq<int>>)
  {
    |offsets| == |nodes| == |chunks| &&
    forall i :: 0 <= i < |nodes| ==> NodeLinked(input, base, offsets, nodes, chunks, i)
  }

  /** Record i sits at its offset, links to record i + 1 (or -1 for the last), and a file's chunks are linked. */
  ghost predicate NodeLinked(input: Bytes, base: nat, offsets: seq<int>, nodes: seq<Node>, chunks: seq<seq<int>>, i: nat)
    requires i < |offsets| == |nodes| == |chunks|
  {
    var next := First(offsets[i + 1..]);
    offsets[i] != -1 && IsLong(offsets[i]) && base + offsets[i] >= 0 && IsLong(next) &&
    (nodes[i].File? ==>
      IsLong(nodes[i].firstChunk) && nodes[i].firstChunk == First(chunks[i]) && ChunkList(input, base, chunks[i])) &&
    At(input, base + offsets[i], EncodeNode(nodes[i], next))
  }

  /** The entries such a list yields: one per file, in list order. */
  function Files(nodes: seq<Node>, chunks: seq<seq<int>>): (es: seq<Entry>)
    requires |nodes| == |chunks|
    ensures |es| <= |nodes|
  {
    if nodes == [] then []
    else
      var rest := Files(nodes[1..], chunks[1..]);
      if nodes[0].File? then [FileEntry(nodes[0], DataOffsets(chunks[0]))] + rest else rest
  }

  /** Records linked in order are walked in that order: every file yields its entry and chunk data offsets. */
  lemma WalkNodeList(input: Bytes, base: nat, offsets: seq<int>, nodes: seq<Node>,
                     chunks: seq<seq<int>>, limit: nat, left: nat)
    requires NodeList(input, base, offsets, nodes, chunks)
    requires |nodes| <= left && forall i :: 0 <= i < |chunks| ==> |chunks[i]| <= limit
    ensures WalkEntries(input, base, First(offsets), limit, left) == Walk(Files(nodes, chunks), None)
  {
    NodesWalked(input, base, offsets, nodes, chunks, limit, left);
    assert EntriesAre(input, base, First(offsets), limit, left, Walk(Files(nodes, chunks), None));
  }

  /** The entry walk from `offset` gives `w`; the one-point range keeps the walk folded. */
  ghost predicate EntriesAre(input: Bytes, base: nat, offset: int, limit: nat, left: nat, w: Walk)
  {
    forall f: nat | f == left :: WalkEntries(input, base, offset, limit, f) == w
  }

  lemma {:induction false} NodesWalked(input: Bytes, base: nat, offsets: seq<int>, nodes: seq<Node>,
                                       chunks: seq<seq<int>>, limit: nat, left: nat)
    requires NodeList(input, base, offsets, nodes, chunks)
    requires |nodes| <= left && forall i :: 0 <= i < |chunks| ==> |chunks[i]| <= limit
    ensures EntriesAre(input, base, First(offsets), limit, left, Walk(Files(nodes, chunks), None))
    decreases |nodes|
  {
    if nodes == [] {
      EntriesEnd(input, base, limit, left);
    } else {
      assert NodeLinked(input, base, offsets, nodes, chunks, 0);
      NodeListTail(input, base, offsets, nodes, chunks);
      NodesWalked(input, base, offsets[1..], nodes[1..], chunks[1..], limit, left - 1);
      if nodes[0].File? {
        ChunksWalked(input, base, chunks[0], limit);
      }
      NodesStep(input, base, offsets, nodes, chunks, limit, left, Walk(Files(nodes[1..], chunks[1..]), None));
    }
  }

  lemma EntriesEnd(input: Bytes, base: nat, limit: nat, left: nat)
    ensures EntriesAre(input, base, -1, limit, left, Walk([], None))
  {
  }

  lemma NodeListTail(input: Bytes, base: nat, offsets: seq<int>, nodes: seq<Node>, chunks: seq<seq<int>>)
    requires NodeList(input, base, offsets, nodes, chunks) && nodes != []
    ensures NodeList(input, base, offsets[1..], nodes[1..], chunks[1..])
  {
    forall i | 0 <= i < |nodes| - 1
      ensures NodeLinked(input, base, offsets[1..], nodes[1..], chunks[1..], i)
    {
      assert NodeLinked(input, base, offsets, nodes, chunks, i + 1);
      assert offsets[1..][i + 1..] == offsets[i + 2..];
    }
  }

  /** The first record of a linked list: a file's entry, then the walk from the second record. */
  lemma NodesStep(input: Bytes, base: nat, offsets: seq<int>, nodes: seq<Node>, chunks: seq<seq<int>>,
                  limit: nat, left: nat, rest: Walk)
    requires nodes != [] && left > 0 && |offsets| == |nodes| == |chunks|
    requires NodeLinked(input, base, offsets, nodes, chunks, 0)
    requires nodes[0].File? ==> ChunksAre(input, base, First(chunks[0]), limit, Ok(DataOffsets(chunks[0])))
    requires EntriesAre(input, base, First(offsets[1..]), limit, left - 1, rest)
    ensures EntriesAre(input, base, offsets[0], limit, left,
      if nodes[0].File? then Prepend(FileEntry(nodes[0], DataOffsets(chunks[0])), rest) else rest)
  {
    var next := First(offsets[1..]);
    ReadNodeAt(input, base + offsets[0], nodes[0], next);
    assert WalkEntries(input, base, next, limit, left - 1) == rest;
    if nodes[0].File? {
      assert WalkChunks(input, base, nodes[0].firstChunk, limit) == Ok(DataOffsets(chunks[0]));
    }
  }

  // ---------------------------------------------------------------------------
  // The archive object

  /** The walk after the signature: the first-record link at base + 4, then the entry walk. */
  function Opened(input: Bytes, base: nat, limit: nat): (w: Walk)
    ensures base + 12 > |input| ==> w == Walk([], Some(EndOfStream))
  {
    match ReadLink(input, base + 4, FIRST_ENTRY_MASK)
    case Err(e) => Walk([], Some(e))
    case Ok((first, _)) => WalkEntries(input, base, first, limit, limit)
  }

  /** What a walk leaves as Deserialize's outcome. */
  function Outcome(w: Walk): (r: Result<()>)
    ensures r.Ok? <==> w.failure.None?
  {
    if w.failure.Some? then Err(w.failure.value) else Ok(())
  }

  /** The entries added so far in front of what the rest of the walk adds. */
  function Joined(done: seq<Entry>, w: Walk): (r: Walk)
    ensures r.entries == done + w.entries && r.failure == w.failure
  {
    Walk(done + w.entries, w.failure)
  }

  class ArchiveFile {
    var basePosition: int
    var endian: Endian
    var mode: bv8
    var entries: seq<Entry>

    /** A new archive: no entries. */
    constructor ()
      ensures basePosition == 0 && endian == Little && mode == 0 && entries == []
    {
      basePosition := 0;
      endian := Little;
      mode := 0;
      entries := [];
    }

    /** The Antibirth format stores no checksums. */
    function HasChecksums(): (r: bool)
      ensures !r
    {
      false
    }

    /** Serialize is not implemented by the original. */
    method Serialize() returns (r: Result<Bytes>)
      ensures r == Err(NotImplemented)
    {
      r := Err(NotImplemented);
    }

    /**
     * Deserialize: a short stream or a wrong signature leaves the archive as it was;
     * otherwise the base position is recorded, the mode forced to LZW, the entries
     * cleared, and the walk adds one entry per file record until a link of -1, or
     * until the exception that stops it, which keeps the entries added before.
     */
    method Deserialize(input: Bytes, base: nat, limit: nat) returns (r: Result<()>)
      modifies this
      ensures var v := IsValid(input, base);
        v.Err? ==> r == Err(EndOfStream) && unchanged(this)
      ensures var v := IsValid(input, base);
        v == Ok(false) ==> r == Err(Format("")) && unchanged(this)
      ensures IsValid(input, base) == Ok(true) ==>
        basePosition == base && endian == Little && mode == RebirthRead.LZW &&
        var w := Opened(input, base, limit);
        entries == w.entries && r == Outcome(w)
    {
      var magic := ReadSignature(input, base);
      if magic.Err? {
        return Err(magic.error);
      }
      if magic.value.0 != SIGNATURE {
        return Err(Format(""));
      }
      basePosition := base;
      endian := Little;
      mode := RebirthRead.LZW;
      entries := [];
      var first := ReadOffset(input, base + 4, FIRST_ENTRY_MASK);
      if first.Err? {
        OpenedStart(input, base, limit, first);
        return Err(first.error);
      }
      OpenedStart(input, base, limit, first);
      var added;
      added, r := WalkRecords(input, base, first.value.0, limit, limit);
      entries := added;
    }

    /** ComputeNameHash: a null path is ArgumentNull; any other is NotImplemented. */
    static function ComputeNameHash(path: Option<string>): (r: Result<bv64>)
      ensures r.Err?
      ensures path.None? <==> r.error == ArgumentNull
      ensures path.Some? <==> r.error == NotImplemented
    {
      if path.None? then Err(ArgumentNull) else Err(NotImplemented)
    }
  }

  /**
   * The record loop of Deserialize: from record `offset`, with `left` links to follow,
   * the entries it adds (also those added before an exception) and how it ends.
   */
  method WalkRecords(input: Bytes, base: nat, offset: int, limit: nat, left: nat)
    returns (added: seq<Entry>, r: Result<()>)
    ensures var w := WalkEntries(input, base, offset, limit, left);
      added == w.entries && r == Outcome(w)
  {
    var at := offset;
    var links := left;
    added := [];
    ghost var target := WalkEntries(input, base, offset, limit, left);
    ghost var rest := target;
    EntriesAreWalk(input, base, offset, limit, left);
    while at != -1
      invariant EntriesAre(input, base, at, limit, links, rest)
      invariant target == Joined(added, rest)
      decreases links
    {
      if links == 0 {
        EntriesFuel(input, base, at, limit, rest);
        return added, Err(FuelExhausted);
      }
      if base + at < 0 {
        EntriesNegative(input, base, at, limit, links, rest);
        return added, Err(ArgumentOutOfRange);
      }
      var node := ReadRecord(input, base + at);
      if node.Err? {
        EntriesShort(input, base, at, limit, links, rest, node);
        return added, Err(node.error);
      }
      var next := node.value.1;
      if node.value.0.File? {
        var chunks := ReadChunkOffsets(input, base, node.value.0.firstChunk, limit);
        if chunks.Err? {
          EntriesFileFails(input, base, at, limit, links, rest, node, chunks);
          return added, Err(chunks.error);
        }
        rest := EntriesFileAdds(input, base, at, limit, links, rest, node, chunks);
        added := added + [FileEntry(node.value.0, chunks.value)];
      } else {
        rest := EntriesDirectory(input, base, at, limit, links, rest, node);
      }
      at := next;
      links := links - 1;
    }
    EntriesDone(input, base, limit, links, rest);
    assert added + [] == added;
    return added, Ok(());
  }

  /** The signature read of Deserialize. */
  method ReadSignature(input: Bytes, base: nat) returns (r: Result<(bv32, nat)>)
    ensures r.Err? <==> IsValid(input, base).Err?
    ensures r.Err? ==> r.error == EndOfStream
    ensures r.Ok? ==> (r.value.0 == SIGNATURE <==> IsValid(input, base) == Ok(true))
  {
    r := ReadU32(input, base, Little);
  }

  /** The link at p reads as `r`; the one-point range keeps the bytes folded. */
  ghost predicate LinkIs(input: Bytes, p: nat, mask: Bytes, r: Result<(int, nat)>)
    requires |mask| == 8
  {
    forall q: nat | q == p :: ReadLink(input, q, mask) == r
  }

  /** An offset field read (ReadValueU64 and the XOR). */
  method ReadOffset(input: Bytes, p: nat, mask: Bytes) returns (r: Result<(int, nat)>)
    requires |mask| == 8
    ensures LinkIs(input, p, mask, r)
    ensures r.Ok? <==> p + 8 <= |input|
    ensures r.Err? ==> r.error == EndOfStream
  {
    r := ReadLink(input, p, mask);
  }

  /** The record at p reads as `r`. */
  ghost predicate NodeIs(input: Bytes, p: nat, r: Result<(Node, int)>)
  {
    forall q: nat | q == p :: ReadNode(input, q) == r
  }

  /** One record of the walk: the is-file byte, the skip, the link, the hash and a file's fields. */
  method ReadRecord(input: Bytes, p: nat) returns (r: Result<(Node, int)>)
    ensures NodeIs(input, p, r)
    ensures r.Ok? ==> IsLong(r.value.1)
  {
    r := ReadNode(input, p);
    if r.Ok? {
      assert r.value.1 == ReadLink(input, p + 17, NEXT_ENTRY_MASK).value.0;
    }
  }

  /**
   * The chunk walk of Deserialize for one file: chunk + 8 is added for each chunk, a
   * seek to it, the next-chunk link read and unmasked, until -1.
   */
  method ReadChunkOffsets(input: Bytes, base: nat, chunk: int, limit: nat) returns (r: Result<seq<int>>)
    ensures ChunksAre(input, base, chunk, limit, r)
  {
    var offsets: seq<int> := [];
    var c := chunk;
    var left := limit;
    ghost var rest := WalkChunks(input, base, chunk, limit);
    ghost var target := rest;
    PrefixedNone(target);
    while c != -1
      invariant ChunksAre(input, base, c, left, rest) && target == Prefixed(offsets, rest)
      decreases left
    {
      if left == 0 {
        ChunksFuel(input, base, c, rest);
        return Err(FuelExhausted);
      }
      var o := c + CHUNK_HEADER_SIZE;
      if base + c < 0 {
        ChunksNegative(input, base, c, left, rest);
        return Err(ArgumentOutOfRange);
      }
      var next := ReadOffset(input, base + c, NEXT_CHUNK_MASK);
      ghost var rest' := ChunksAhead(input, base, c, left, rest, next);
      if next.Err? {
        return Err(next.error);
      }
      PrefixedAppend(offsets, o, rest');
      offsets := offsets + [o];
      c := next.value.0;
      left := left - 1;
      rest := rest';
    }
    assert rest == Ok([]) by {
      assert WalkChunks(input, base, c, left) == rest;
    }
    assert offsets + [] == offsets;
    return Ok(offsets);
  }

  lemma ChunksFuel(input: Bytes, base: nat, c: int, rest: Result<seq<int>>)
    requires c != -1 && ChunksAre(input, base, c, 0, rest)
    ensures rest == Err(FuelExhausted)
  {
    assert WalkChunks(input, base, c, 0) == rest;
  }

  lemma ChunksNegative(input: Bytes, base: nat, c: int, left: nat, rest: Result<seq<int>>)
    requires c != -1 && left > 0 && base + c < 0 && ChunksAre(input, base, c, left, rest)
    ensures rest == Err(ArgumentOutOfRange)
  {
    assert WalkChunks(input, base, c, left) == rest;
  }

  /** A chunk's link read: its failure is the walk's; otherwise the walk goes on from the link. */
  lemma ChunksAhead(input: Bytes, base: nat, c: int, left: nat, rest: Result<seq<int>>, next: Result<(int, nat)>)
    returns (rest': Result<seq<int>>)
    requires c != -1 && left > 0 && base + c >= 0 && ChunksAre(input, base, c, left, rest)
    requires LinkIs(input, base + c, NEXT_CHUNK_MASK, next)
    ensures next.Err? ==> rest == Err(next.error)
    ensures next.Ok? ==> (ChunksAre(input, base, next.value.0, left - 1, rest') &&
      rest == Prefixed([c + CHUNK_HEADER_SIZE], rest'))
  {
    assert ReadLink(input, base + c, NEXT_CHUNK_MASK) == next;
    assert WalkChunks(input, base, c, left) == rest;
    if next.Ok? {
      rest' := WalkChunks(input, base, next.value.0, left - 1);
      ChunksAreWalk(input, base, next.value.0, left - 1);
    } else {
      rest' := rest;
    }
  }

  lemma ChunksAreWalk(input: Bytes, base: nat, c: int, left: nat)
    ensures ChunksAre(input, base, c, left, WalkChunks(input, base, c, left))
  {
  }

  lemma EntriesAreWalk(input: Bytes, base: nat, offset: int, limit: nat, left: nat)
    ensures EntriesAre(input, base, offset, limit, left, WalkEntries(input, base, offset, limit, left))
  {
  }

  lemma EntriesFuel(input: Bytes, base: nat, offset: int, limit: nat, rest: Walk)
    requires offset != -1 && EntriesAre(input, base, offset, limit, 0, rest)
    ensures rest == Walk([], Some(FuelExhausted))
  {
    assert WalkEntries(input, base, offset, limit, 0) == rest;
  }

  lemma EntriesNegative(input: Bytes, base: nat, offset: int, limit: nat, left: nat, rest: Walk)
    requires offset != -1 && left > 0 && base + offset < 0 && EntriesAre(input, base, offset, limit, left, rest)
    ensures rest == Walk([], Some(ArgumentOutOfRange))
  {
    assert WalkEntries(input, base, offset, limit, left) == rest;
  }

  lemma EntriesShort(input: Bytes, base: nat, offset: int, limit: nat, left: nat, rest: Walk, node: Result<(Node, int)>)
    requires offset != -1 && left > 0 && base + offset >= 0 && EntriesAre(input, base, offset, limit, left, rest)
    requires NodeIs(input, base + offset, node) && node.Err?
    ensures rest == Walk([], Some(node.error))
  {
    assert ReadNode(input, base + offset) == node;
    assert WalkEntries(input, base, offset, limit, left) == rest;
  }

  lemma EntriesDirectory(input: Bytes, base: nat, offset: int, limit: nat, left: nat, rest: Walk, node: Result<(Node, int)>)
    returns (rest': Walk)
    requires offset != -1 && left > 0 && base + offset >= 0 && EntriesAre(input, base, offset, limit, left, rest)
    requires NodeIs(input, base + offset, node) && node.Ok? && node.value.0.Directory?
    ensures EntriesAre(input, base, node.value.1, limit, left - 1, rest') && rest' == rest
  {
    assert ReadNode(input, base + offset) == node;
    assert WalkEntries(input, base, offset, limit, left) == rest;
    rest' := rest;
    EntriesAreWalk(input, base, node.value.1, limit, left - 1);
  }

  /** A file record whose chunk walk fails ends the walk with that failure. */
  lemma EntriesFileFails(input: Bytes, base: nat, offset: int, limit: nat, left: nat, rest: Walk,
                         node: Result<(Node, int)>, chunks: Result<seq<int>>)
    requires offset != -1 && left > 0 && base + offset >= 0 && EntriesAre(input, base, offset, limit, left, rest)
    requires NodeIs(input, base + offset, node) && node.Ok? && node.value.0.File?
    requires ChunksAre(input, base, node.value.0.firstChunk, limit, chunks) && chunks.Err?
    ensures rest == Walk([], Some(chunks.error))
  {
    assert ReadNode(input, base + offset) == node;
    assert WalkChunks(input, base, node.value.0.firstChunk, limit) == chunks;
    assert WalkEntries(input, base, offset, limit, left) == rest;
  }

  /** A file record whose chunk walk succeeds puts its entry in front of the rest of the walk. */
  lemma EntriesFileAdds(input: Bytes, base: nat, offset: int, limit: nat, left: nat, rest: Walk,
                        node: Result<(Node, int)>, chunks: Result<seq<int>>)
    returns (rest': Walk)
    requires offset != -1 && left > 0 && base + offset >= 0 && EntriesAre(input, base, offset, limit, left, rest)
    requires NodeIs(input, base + offset, node) && node.Ok? && node.value.0.File?
    requires ChunksAre(input, base, node.value.0.firstChunk, limit, chunks) && chunks.Ok?
    ensures EntriesAre(input, base, node.value.1, limit, left - 1, rest')
    ensures rest == Prepend(FileEntry(node.value.0, chunks.value), rest')
  {
    assert ReadNode(input, base + offset) == node;
    assert WalkChunks(input, base, node.value.0.firstChunk, limit) == chunks;
    assert WalkEntries(input, base, offset, limit, left) == rest;
    rest' := WalkEntries(input, base, node.value.1, limit, left - 1);
    EntriesAreWalk(input, base, node.value.1, limit, left - 1);
  }

  /** The first link read by Deserialize starts the walk that Opened describes. */
  lemma OpenedStart(input: Bytes, base: nat, limit: nat, first: Result<(int, nat)>)
    requires LinkIs(input, base + 4, FIRST_ENTRY_MASK, first)
    ensures first.Err? ==> Opened(input, base, limit) == Walk([], Some(first.error))
    ensures first.Ok? ==> EntriesAre(input, base, first.value.0, limit, limit, Opened(input, base, limit))
  {
    assert ReadLink(input, base + 4, FIRST_ENTRY_MASK) == first;
    if first.Ok? {
      EntriesAreWalk(input, base, first.value.0, limit, limit);
    }
  }

  lemma EntriesDone(input: Bytes, base: nat, limit: nat, left: nat, rest: Walk)
    requires EntriesAre(input, base, -1, limit, left, rest)
    ensures rest == Walk([], None)
  {
    assert WalkEntries(input, base, -1, limit, left) == rest;
  }
}
