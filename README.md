# Gibbed.Rebirth decode engine, modelled in Dafny

This project models the decode engine of the Gibbed tools for *The Binding of Isaac: Rebirth*, *Afterbirth* and *Antibirth*:

- **Rebirth archive container.** The `ARCH000` header and its 20-byte index records. The two name hashes and their case folding. The entry checksum. The two "Bogocrypt" XOR ciphers.
- **Per-entry decode dispatch.** Bogocrypt1, LZW, MiniZ and Bogocrypt2 blocks. The ISAAC keystream that the MiniZ branch XORs over its raw blocks.
- **The trunk LZW decoder.** Its code dictionary and the MSB-first `BitReader` it reads codes with.
- **The Antibirth container.** Its linked list of obfuscated entry and chunk records, the entry cipher and `Hash32`.
- **Record codecs.** The animation file (content tables, animations, root and null animations, null frames, triggers). The animation cache. The Afterbirth stage file (`STB1`: rooms, doors, spawns, entities).

Streams are byte sequences (`seq<bv8>`) with a cursor. An exception is the `Err` case of a `Result`, named after the .NET exception type.

Integers come in two kinds:
- Most `uint`/`ulong` values that take part in bitwise arithmetic are bit-vectors (`bv32`, `bv64`), so their arithmetic wraps as in C#. This covers the name hashes, `Hash32`, the Bogocrypt keys, the PCG state of `GetISAAC`, the cipher bytes and the signatures.
- The entry checksum and the ISAAC words (state, results, `a`, `b`, `c`) are ranged `u32` integers instead. Every operation on them is taken mod 2^32 explicitly (`Word32`, `RebirthArchive.Mix`), which gives the same bits as C#'s wrapping `uint` arithmetic.
- One that only counts, measures or names something is a ranged integer: `u8`, `u16` or `u32` in module `ByteIO`. This covers lengths, counts, offsets and record ids.

A .NET string is its UTF-16 code units (`Text`). The length-prefixed strings of the record codecs keep the C# code's Encoding.ASCII and Gibbed.IO's trailing-NUL cut. So a string comes back as written exactly when it is *lossless*: no NUL and nothing above 0x7F. Every round trip over records with names is stated for lossless names.

Each stateful C# class is a Dafny `class`, with a method per C# method:

- `BitReader`, `ISAAC`, `CodeDictionary`, the two `ArchiveFile`s, `AnimationCacheBinaryFile` and `StageBinaryFile`.
- Each method is proved against a specification function.
- The properties the format promises are lemmas about those functions:
  - reading back what was written;
  - cipher involutions and inverses;
  - the LZW chain invariant;
  - the bounds every reader enforces.

Byte-array algorithms that work in place keep their `array<bv8>` (Bogocrypt1, Bogocrypt2, SwapBytes, the checksum block loop, the Antibirth entry cipher, the MiniZ keystream XOR).

## Model

| member | source | states |
|---|---|---|
| `RebirthArchive.Entry.CombinedNameHash` | projects/Gibbed.Rebirth.FileFormats/ArchiveEntry.cs:39-47 | hash A is the low 32 bits and hash B the high 32 bits of the combined key |
| `RebirthArchive.Entry.BogocryptKey` | projects/Gibbed.Rebirth.FileFormats/ArchiveEntry.cs:49-52 | the key is odd, and its other 31 bits are those of hash B XOR 0xF9524287 |
| `RebirthArchive.CombineInjective` | Gibbed.Rebirth.FileFormats/ArchiveFile.cs:119-127 | equal combined keys have equal hash halves |
| `RebirthArchive.LowerChar` | Gibbed.Rebirth.FileFormats/ArchiveFile.cs:164 | `A`–`Z` map to `a`–`z`; every other code unit is unchanged |
| `RebirthArchive.LowerIdempotent` | Gibbed.Rebirth.FileFormats/ArchiveFile.cs:164 | lower-casing twice is lower-casing once |
| `RebirthArchive.HashALowBytes` | Gibbed.Rebirth.FileFormats/ArchiveFile.cs:170-184 | hash A sees only the low byte of each code unit: paths that agree there hash alike |
| `RebirthArchive.HashBLastUnit` | Gibbed.Rebirth.FileFormats/ArchiveFile.cs:186-200 | hash B tells apart two paths that differ only in their last code unit |
| `RebirthArchive.ComputeNameHash` | Gibbed.Rebirth.FileFormats/ArchiveFile.cs:157-168 | a null path is ArgumentNull; otherwise the low half is hash A and the high half hash B of the lower-cased path |
| `RebirthArchive.NameHashIgnoresCase` | Gibbed.Rebirth.FileFormats/ArchiveFile.cs:157-168 | a path and its lower-cased form have the same name hash |
| `RebirthArchive.EntryMatchesPath` | Gibbed.Rebirth.FileFormats/ArchiveFile.cs:119-127 | an entry's combined key equals a path's name hash iff its hash A and hash B are those of the lower-cased path |
| `RebirthArchive.ChecksumOf` | Gibbed.Rebirth.FileFormats/ArchiveFile.cs:207-233 | a null buffer is ArgumentNull, whatever the count; with the buffer present, a count of zero or less yields the seed, and a positive count succeeds iff the range lies inside the buffer |
| `RebirthArchive.ChecksumOneBlock` | Gibbed.Rebirth.FileFormats/ArchiveFile.cs:216-230 | a short final block is hashed zero-padded, over ceil(n/4) words |
| `RebirthArchive.ChecksumBleed` | Gibbed.Rebirth.FileFormats/ArchiveFile.cs:216-230 | a second partial block is hashed with the stale tail of the previous block behind it, not zeros |
| `RebirthArchive.BlockLoopChecksum` | Gibbed.Rebirth.FileFormats/ArchiveFile.cs:207-233 | the block loop yields the seed for count <= 0, ArgumentOutOfRange for a negative offset, Argument for a range past the end, and otherwise the checksum of the range |
| `RebirthArchive.ComputeChecksum` | Gibbed.Rebirth.FileFormats/ArchiveFile.cs:207-233 | the array loop returns ChecksumOf of the array contents (null array as absent) |
| `RebirthArchive.ComputeDefaultChecksum` | Gibbed.Rebirth.FileFormats/ArchiveFile.cs:202-205 | the same with the default seed 0xABABEB98 |
| `Bogocrypt.SwapBytes` | Gibbed.Rebirth.FileFormats/ArchiveFile.cs:309-314 | the two bytes are exchanged and every other byte is unchanged |
| `Bogocrypt.Bogocrypt1` | Gibbed.Rebirth.FileFormats/ArchiveFile.cs:235-272 | the ceil(count/4) groups from offset become Bogo1 of their old contents; the returned key is the key advanced once per group; bytes outside are unchanged |
| `Bogocrypt.ShuffleInvolution` | Gibbed.Rebirth.FileFormats/ArchiveFile.cs:245-267 | the key-selected byte swap of a group undoes itself |
| `Bogocrypt.GroupRoundTrip` | Gibbed.Rebirth.FileFormats/ArchiveFile.cs:240-267 | the group cipher (XOR, then swap) and its inverse (swap, then XOR) undo each other |
| `Bogocrypt.Bogo1RoundTrip` | Gibbed.Rebirth.FileFormats/ArchiveFile.cs:235-272 | Bogocrypt1 over whole groups has an inverse, in both orders |
| `Bogocrypt.Bogo1Split` | Gibbed.Rebirth.FileFormats/ArchiveFile.cs:269 | enciphering a + b is enciphering a, then b with the key advanced |a|/4 times, so blocks can be processed one at a time |
| `Bogocrypt.Bogocrypt2` | Gibbed.Rebirth.FileFormats/ArchiveFile.cs:274-284 | the ceil(count/4) groups from offset become Bogo2 of their old contents (XOR with the 128-byte table, cycled); bytes outside are unchanged |
| `Bogocrypt.Bogo2Involution` | Gibbed.Rebirth.FileFormats/ArchiveFile.cs:274-307 | Bogocrypt2 undoes itself |
| `Bogocrypt.Bogo2Split` | Gibbed.Rebirth.FileFormats/ArchiveFile.cs:274-284 | Bogocrypt2 over a prefix of whole 128-byte periods splits off from the rest |
| `RebirthIndex.ReadHeader` | Gibbed.Rebirth.FileFormats/ArchiveFile.cs:77-87 | succeeds iff the 16 header bytes are present and begin with "ARCH000"; a wrong signature is Format, a short stream EndOfStream; the mode is byte 7 |
| `RebirthIndex.ReadRecords` | Gibbed.Rebirth.FileFormats/ArchiveFile.cs:93-108 | n records succeed iff n 20-byte records are present, and yield exactly n entries |
| `RebirthIndex.ReadIndex` | Gibbed.Rebirth.FileFormats/ArchiveFile.cs:93-108 | the index at base + indexOffset yields count entries; a zero count reads nothing |
| `RebirthIndex.DeserializeEncoded` | Gibbed.Rebirth.FileFormats/ArchiveFile.cs:73-109 | a header and index laid out as the reader expects, anywhere in a stream, deserialize to that mode and those entries |
| `RebirthIndex.ArchiveFile.constructor` | Gibbed.Rebirth.FileFormats/ArchiveFile.cs:42-49 | a new archive is little-endian, mode 0, with no entries |
| `RebirthIndex.ArchiveFile.Serialize` | Gibbed.Rebirth.FileFormats/ArchiveFile.cs:68-71 | always NotImplemented |
| `RebirthIndex.ArchiveFile.Deserialize` | Gibbed.Rebirth.FileFormats/ArchiveFile.cs:73-109 | a bad header leaves the archive unchanged; otherwise the endian and mode are set, and the entries are the decoded index, or cleared when the index read fails |
| `RebirthIndex.ReadEntries` | Gibbed.Rebirth.FileFormats/ArchiveFile.cs:93-108 | the index loop returns ReadIndex |
| `RebirthIndex.ReadRecordArray` | Gibbed.Rebirth.FileFormats/ArchiveFile.cs:95-107 | the record loop returns ReadRecords |
| `RebirthEntry.SeedWords` | projects/Gibbed.Rebirth.FileFormats/ArchiveEntry.cs:57-70 | the seed array filled by the PCG-style loop equals IsaacSeed of hash B |
| `RebirthEntry.GetIsaac` | projects/Gibbed.Rebirth.FileFormats/ArchiveEntry.cs:55-74 | a fresh, valid generator whose output is the ISAAC stream seeded from hash B |
| `RebirthEntry.IsaacOfUnique` | projects/Gibbed.Rebirth.FileFormats/ArchiveEntry.cs:55-74 | the keystream of an entry is determined by its hash B |
| `RebirthEntry.ReadInto` | projects/Gibbed.Rebirth.FileFormats/ArchiveEntry.cs:114 | a stream read fills min(n, available) bytes at the front of the buffer and leaves the rest |
| `RebirthEntry.BlockWords` | projects/Gibbed.Rebirth.FileFormats/ArchiveEntry.cs:113 | a block covers ceil(remaining/4) words, capped at the block size |
| `RebirthEntry.ReadBogocrypt1` | projects/Gibbed.Rebirth.FileFormats/ArchiveEntry.cs:105-132 | the block loop returns Bogo1Blocks of the stream |
| `RebirthEntry.Bogo1BlocksOk` | projects/Gibbed.Rebirth.FileFormats/ArchiveEntry.cs:114-123 | the Bogocrypt1 branch succeeds iff the entry's length bytes are present |
| `RebirthEntry.Bogo1BlocksLength` | projects/Gibbed.Rebirth.FileFormats/ArchiveEntry.cs:127 | a successful Bogocrypt1 branch writes exactly length bytes |
| `RebirthEntry.Bogo1BlocksValue` | projects/Gibbed.Rebirth.FileFormats/ArchiveEntry.cs:105-132 | with the padded groups present, block-by-block deciphering equals Bogo1 of the whole padded range, cut to length |
| `RebirthEntry.ReadBogocrypt2` | projects/Gibbed.Rebirth.FileFormats/ArchiveEntry.cs:212-238 | the block loop returns Bogo2Blocks of the stream |
| `RebirthEntry.RawTail` | projects/Gibbed.Rebirth.FileFormats/ArchiveEntry.cs:218-234 | fewer than four trailing bytes are copied raw; none when the last block holds a whole group |
| `RebirthEntry.Bogo2BlocksValue` | projects/Gibbed.Rebirth.FileFormats/ArchiveEntry.cs:212-238 | the branch is EndOfStream on a short stream; otherwise Bogo2 of everything but the raw tail, then the tail unchanged |
| `RebirthMiniZ.KeyStreamSplit` | projects/Gibbed.Rebirth.FileFormats/ArchiveEntry.cs:176-189 | the keystream of 4k + m bytes is that of 4k bytes followed by that of m bytes after k ISAAC words |
| `RebirthMiniZ.XorKeystream` | projects/Gibbed.Rebirth.FileFormats/ArchiveEntry.cs:171-189 | the first n block bytes are XORed with the next n keystream bytes, and ISAAC advances ceil(n/4) words |
| `RebirthMiniZ.BlockHeader` | projects/Gibbed.Rebirth.FileFormats/ArchiveEntry.cs:154-166 | a good block header gives a size of at most 0x800 whose bytes are all present |
| `RebirthMiniZ.MiniZBlock` | projects/Gibbed.Rebirth.FileFormats/ArchiveEntry.cs:168-204 | a block only appends to the output; once a block is compressed every later one is, with the same keys; a non-final full raw block keeps the raw state |
| `RebirthMiniZ.MiniZBlocks` | projects/Gibbed.Rebirth.FileFormats/ArchiveEntry.cs:142-210 | a successful MiniZ branch yields exactly length bytes |
| `RebirthMiniZ.RawIgnoresInflate` | projects/Gibbed.Rebirth.FileFormats/ArchiveEntry.cs:168-194 | while blocks are raw, the inflater is never consulted |
| `RebirthMiniZ.RawBlockInverse` | projects/Gibbed.Rebirth.FileFormats/ArchiveEntry.cs:168-194 | a raw block stored as plain XOR keystream reads back as plain |
| `RebirthMiniZ.ReadMiniZ` | projects/Gibbed.Rebirth.FileFormats/ArchiveEntry.cs:142-210 | the block loop returns MiniZBlocks, starting raw with the entry's keystream |
| `RebirthRead.Decoded` | projects/Gibbed.Rebirth.FileFormats/ArchiveEntry.cs:101-245 | an unknown mode is NotSupported; every branch but LZW yields exactly the entry's length |
| `RebirthRead.ReadEntry` | Gibbed.Rebirth.Unpack/ArchiveCompression.cs:34-182 | the explicit-mode dispatch returns Decoded |
| `RebirthRead.Read` | projects/Gibbed.Rebirth.FileFormats/ArchiveEntry.cs:101-245 | the archive-mode dispatch returns Decoded with the archive's mode and endian |
| `RebirthRead.Bogocrypt1Ok` | projects/Gibbed.Rebirth.FileFormats/ArchiveEntry.cs:105-132 | Bogocrypt1 decoding succeeds iff the entry's bytes are present |
| `RebirthRead.Bogocrypt1Value` | projects/Gibbed.Rebirth.FileFormats/ArchiveEntry.cs:105-132 | Bogocrypt1 decoding is Bogo1 of the padded range, cut to length |
| `RebirthRead.Bogocrypt2Short` | projects/Gibbed.Rebirth.FileFormats/ArchiveEntry.cs:220-224 | Bogocrypt2 decoding of a truncated entry is EndOfStream |
| `RebirthRead.Bogocrypt2Value` | projects/Gibbed.Rebirth.FileFormats/ArchiveEntry.cs:212-238 | Bogocrypt2 decoding is Bogo2 of the body followed by the raw tail |
| `RebirthRead.Bogocrypt1Packed` | projects/Gibbed.Rebirth.FileFormats/ArchiveEntry.cs:105-132 | bytes enciphered with the inverse cipher and stored anywhere decode back to the plain bytes |
| `RebirthRead.Bogocrypt2Packed` | projects/Gibbed.Rebirth.FileFormats/ArchiveEntry.cs:212-238 | bytes packed with Bogo2 plus a raw tail decode back to the plain bytes |
| `Isaac.ScrambleLines` | projects/Gibbed.Rebirth.FileFormats/ISAAC.cs:166-192 | the eight-line mixing step equals its line-by-line form |
| `Isaac.InitialPasses` | projects/Gibbed.Rebirth.FileFormats/ISAAC.cs:160-288 | the initial memory is the first pass over the seed after four warm-up mixes, then a second pass when seeded |
| `Isaac.UnseededIgnoresBuffer` | projects/Gibbed.Rebirth.FileFormats/ISAAC.cs:194-240 | without the flag the seed buffer does not affect the memory |
| `Isaac.SeedBufferFull` | projects/Gibbed.Rebirth.FileFormats/ISAAC.cs:77-91 | a full-size seed is the buffer as given |
| `Isaac.SeedBuffer` | projects/Gibbed.Rebirth.FileFormats/ISAAC.cs:77-91 | a short seed is copied to the front and the rest is zero |
| `Isaac.PrimedNext` | projects/Gibbed.Rebirth.FileFormats/ISAAC.cs:290-313 | after Initialize, the first value drawn comes from a fresh batch at index 0 |
| `Isaac.Isaac.Unseeded` | projects/Gibbed.Rebirth.FileFormats/ISAAC.cs:68-71 | a zero buffer, initialized without the flag |
| `Isaac.Isaac.Seeded` | projects/Gibbed.Rebirth.FileFormats/ISAAC.cs:77-91 | the seed buffer, initialized with the flag |
| `Isaac.Isaac.Create` | projects/Gibbed.Rebirth.FileFormats/ISAAC.cs:68-91 | a seed longer than 256 words is Argument; otherwise a valid generator over the zero or seeded buffer |
| `Isaac.Isaac.Generate` | projects/Gibbed.Rebirth.FileFormats/ISAAC.cs:96-154 | one batch: c increments, and all 256 results and memory words follow the two half loops |
| `Isaac.Isaac.Initialize` | projects/Gibbed.Rebirth.FileFormats/ISAAC.cs:160-291 | the memory is InitialMemory of the old results, followed by a Generate |
| `Isaac.Isaac.Fill` | projects/Gibbed.Rebirth.FileFormats/ISAAC.cs:166-288 | the warm-up and one or two passes leave the memory at InitialMemory |
| `Isaac.Isaac.FirstPass` | projects/Gibbed.Rebirth.FileFormats/ISAAC.cs:194-240 | the first pass writes Pass over the results |
| `Isaac.Isaac.SecondPass` | projects/Gibbed.Rebirth.FileFormats/ISAAC.cs:242-288 | the second pass writes Pass over the memory |
| `Isaac.Isaac.Value` | projects/Gibbed.Rebirth.FileFormats/ISAAC.cs:297-313 | returns the current result and advances the index, regenerating after the 256th; the reader moves to Next |
| `BitReader.BitReader.Create` | projects/Gibbed.Rebirth.FileFormats/BitReader.cs:47-57 | a null buffer is ArgumentNull; otherwise position 0 over the whole buffer's bits |
| `BitReader.BitReader.ReadUInt32` | projects/Gibbed.Rebirth.FileFormats/BitReader.cs:64-87 | bits outside 1..32 is ArgumentOutOfRange with no change; succeeds iff enough bits remain, else EndOfStream at the end; consumes exactly `bits`; the value is below 2^bits, 0 for 32 bits, and the next `bits` stream bits MSB-first for up to 25 bits |
| `BitReader.BitReader.ReadInt32` | projects/Gibbed.Rebirth.FileFormats/BitReader.cs:59-62 | the same outcome, with the value in the int32 range |
| `BitReader.BitReader.Refill` | projects/Gibbed.Rebirth.FileFormats/BitReader.cs:71-81 | loads whole bytes until enough bits are held or the buffer ends, without consuming any |
| `Lzw.Added` | trunk/Gibbed.Rebirth.FileFormats/ArchiveCompression.cs:80-95 | adding succeeds iff the table has room and the previous index exists; a full table is InvalidOperation |
| `Lzw.Grown` | trunk/Gibbed.Rebirth.FileFormats/ArchiveCompression.cs:97-103 | the code length grows to the least width >= the old one that can hold the count |
| `Lzw.ExpandCycle` | trunk/Gibbed.Rebirth.FileFormats/ArchiveCompression.cs:105-131 | an entry that is its own predecessor is InvalidOperation |
| `Lzw.LineChain` | trunk/Gibbed.Rebirth.FileFormats/ArchiveCompression.cs:105-131 | in a well-formed table the window decode of a code is its chain of values |
| `Lzw.AddedChain` | trunk/Gibbed.Rebirth.FileFormats/ArchiveCompression.cs:80-95 | adding keeps the table well formed: the new code's chain is its prefix's chain plus the value, and old chains are unchanged |
| `Lzw.FreshRoots` | trunk/Gibbed.Rebirth.FileFormats/ArchiveCompression.cs:65-78 | after Reset every root code decodes to its own byte |
| `Lzw.CodeDictionary.constructor` | trunk/Gibbed.Rebirth.FileFormats/ArchiveCompression.cs:57-63 | a new dictionary holds the fresh table |
| `Lzw.CodeDictionary.Reset` | trunk/Gibbed.Rebirth.FileFormats/ArchiveCompression.cs:65-78 | the table is back to the root codes and the initial code length |
| `Lzw.CodeDictionary.Add` | trunk/Gibbed.Rebirth.FileFormats/ArchiveCompression.cs:80-95 | the table becomes Added, or the error is returned and the items are unchanged |
| `Lzw.CodeDictionary.UpdateCodeLength` | trunk/Gibbed.Rebirth.FileFormats/ArchiveCompression.cs:97-103 | the code length becomes Updated of the old table |
| `Lzw.CodeDictionary.Decode` | trunk/Gibbed.Rebirth.FileFormats/ArchiveCompression.cs:105-131 | returns the line of the code and its first byte, or the window overflow's error |
| `Lzw.CodeDictionary.WriteChain` | trunk/Gibbed.Rebirth.FileFormats/ArchiveCompression.cs:110-125 | the window's tail from the returned start is the code's expansion |
| `Lzw.RestartDecodes` | trunk/Gibbed.Rebirth.FileFormats/ArchiveCompression.cs:155-164 | a reset code restarts the fresh table and emits one root byte, or is EndOfStream |
| `Lzw.AppliedDecodes` | trunk/Gibbed.Rebirth.FileFormats/ArchiveCompression.cs:169-194 | a known code or the KwKwK code adds one entry and emits its chain; the KwKwK chain is the previous chain plus its first byte; a code past the table is InvalidOperation |
| `Lzw.ExtendFails` | trunk/Gibbed.Rebirth.FileFormats/ArchiveCompression.cs:166-185 | a step is EndOfStream iff the code's bits are missing, and InvalidOperation iff the code exceeds the table |
| `Lzw.LoopDecodes` | trunk/Gibbed.Rebirth.FileFormats/ArchiveCompression.cs:153-198 | the code loop keeps the table well formed, only appends output, and fails only with EndOfStream or InvalidOperation |
| `Lzw.ChunkCodesDecode` | trunk/Gibbed.Rebirth.FileFormats/ArchiveCompression.cs:141-198 | a first code outside the table is ArgumentOutOfRange, and the chunk only appends output |
| `Lzw.DecompressedDecodes` | trunk/Gibbed.Rebirth.FileFormats/ArchiveCompression.cs:134-210 | a successful decompression yields exactly length bytes; failures are EndOfStream, InvalidOperation or ArgumentOutOfRange |
| `Lzw.Decompress` | trunk/Gibbed.Rebirth.FileFormats/ArchiveCompression.cs:134-210 | the chunk loop returns Decompressed |
| `AntibirthArchive.MaskBytes` | projects/Gibbed.Antibirth.FileFormats/ArchiveConstants.cs:27-33 | the four XOR constants, as little-endian bytes, are the masks the walk applies |
| `AntibirthArchive.DeobfuscateObfuscated` | projects/Gibbed.Antibirth.FileFormats/ArchiveFile.cs:103-111 | un-masking a masked 64-bit offset gives the offset back |
| `AntibirthArchive.ReadNode` | projects/Gibbed.Antibirth.FileFormats/ArchiveFile.cs:106-123 | a record reads iff its 33 directory or 49 file bytes are present, otherwise EndOfStream |
| `AntibirthArchive.IsValid` | projects/Gibbed.Antibirth.FileFormats/ArchiveFile.cs:72-79 | defined iff four bytes are present, and true iff they are the signature |
| `AntibirthArchive.WalkChunks` | projects/Gibbed.Antibirth.FileFormats/ArchiveFile.cs:128-138 | a -1 first offset is no chunks; otherwise the first data offset is the chunk offset plus the 8-byte chunk header |
| `AntibirthArchive.WalkChunkList` | projects/Gibbed.Antibirth.FileFormats/ArchiveFile.cs:128-138 | a linked chunk list laid out in the stream walks to the data offsets of its chunks |
| `AntibirthArchive.ChunksWalked` | projects/Gibbed.Antibirth.FileFormats/ArchiveFile.cs:128-138 | the same, for the chunk loop's outcome |
| `AntibirthArchive.WalkEntries` | projects/Gibbed.Antibirth.FileFormats/ArchiveFile.cs:104-145 | a -1 offset ends the walk with no entries |
| `AntibirthArchive.WalkNodeList` | projects/Gibbed.Antibirth.FileFormats/ArchiveFile.cs:104-145 | a linked list of directory and file records walks to exactly its file entries, in order, without error |
| `AntibirthArchive.NodesWalked` | projects/Gibbed.Antibirth.FileFormats/ArchiveFile.cs:104-145 | the same, for the record loop's outcome |
| `AntibirthArchive.WalkRecords` | projects/Gibbed.Antibirth.FileFormats/ArchiveFile.cs:104-145 | the record loop adds WalkEntries' entries and ends as it does |
| `AntibirthArchive.ReadChunkOffsets` | projects/Gibbed.Antibirth.FileFormats/ArchiveFile.cs:128-138 | the chunk loop returns WalkChunks |
| `AntibirthArchive.Opened` | projects/Gibbed.Antibirth.FileFormats/ArchiveFile.cs:98-103 | a stream too short for the header fields is EndOfStream with no entries |
| `AntibirthArchive.ArchiveFile.constructor` | projects/Gibbed.Antibirth.FileFormats/ArchiveFile.cs:39-42 | a new archive is at base 0, little-endian, mode 0, with no entries |
| `AntibirthArchive.ArchiveFile.HasChecksums` | projects/Gibbed.Antibirth.FileFormats/ArchiveFile.cs:44-47 | false |
| `AntibirthArchive.ArchiveFile.Serialize` | projects/Gibbed.Antibirth.FileFormats/ArchiveFile.cs:81-84 | always NotImplemented |
| `AntibirthArchive.ArchiveFile.Deserialize` | projects/Gibbed.Antibirth.FileFormats/ArchiveFile.cs:86-146 | a short stream is EndOfStream and a bad signature Format, both with the archive unchanged; otherwise the base, endian and LZW mode are set and the entries are those of the walk |
| `AntibirthArchive.ArchiveFile.ComputeNameHash` | projects/Gibbed.Antibirth.FileFormats/ArchiveFile.cs:148-156 | a null path is ArgumentNull, any other NotImplemented |
| `AntibirthEntry.Entry.Checksum` | projects/Gibbed.Antibirth.FileFormats/ArchiveEntry.cs:60-63 | always NotSupported |
| `AntibirthEntry.Entry.Key` | projects/Gibbed.Antibirth.FileFormats/ArchiveEntry.cs:93-115 | the cipher key is the low byte of the magic |
| `AntibirthEntry.DecryptEncrypt` | projects/Gibbed.Antibirth.FileFormats/ArchiveEntry.cs:93-115 | the byte cipher and its inverse undo each other, in both orders |
| `AntibirthEntry.DecryptPermutes` | projects/Gibbed.Antibirth.FileFormats/ArchiveEntry.cs:93-115 | for each mask the byte cipher is a permutation of 0..255 |
| `AntibirthEntry.DecipheredEnciphered` | projects/Gibbed.Antibirth.FileFormats/ArchiveEntry.cs:93-115 | deciphering enciphered bytes gives them back |
| `AntibirthEntry.Bogocrypt` | projects/Gibbed.Antibirth.FileFormats/ArchiveEntry.cs:93-115 | the array loop leaves the buffer at Deciphered of its old contents |
| `AntibirthEntry.EntryRead` | projects/Gibbed.Antibirth.FileFormats/ArchiveEntry.cs:65-91 | a successful read has exactly the entry's length; failures are ArgumentOutOfRange or EndOfStream |
| `AntibirthEntry.EntryReadBytes` | projects/Gibbed.Antibirth.FileFormats/ArchiveEntry.cs:65-91 | each byte from the chunks is deciphered under its position's mask; bytes past the chunks stay zero |
| `AntibirthEntry.EntryReadStored` | projects/Gibbed.Antibirth.FileFormats/ArchiveEntry.cs:65-91 | chunks holding enciphered bytes read back as the plain bytes |
| `AntibirthEntry.Read` | projects/Gibbed.Antibirth.FileFormats/ArchiveEntry.cs:65-91 | the chunk loop returns EntryRead |
| `AntibirthEntry.Hash32Start` | projects/Gibbed.Antibirth.FileFormats/ArchiveEntry.cs:137-138 | the starting hash is below 2^16 |
| `AntibirthEntry.Hash32` | projects/Gibbed.Antibirth.FileFormats/ArchiveEntry.cs:119-148 | a null buffer is ArgumentNull; a bound `offset + count` that wraps below -2^31 is IndexOutOfRange; an empty range, or a bound that wraps above 2^31 - 1, is the start value; otherwise it succeeds iff the range lies in the buffer, else IndexOutOfRange |
| `AntibirthEntry.Hash32Empty` | projects/Gibbed.Antibirth.FileFormats/ArchiveEntry.cs:117-148 | the hash of no bytes is 0x811C |
| `AntibirthEntry.Hash32FoldJoin` | projects/Gibbed.Antibirth.FileFormats/ArchiveEntry.cs:141-145 | the byte loop over s + t is the loop over t after the loop over s |
| `AntibirthEntry.Hash32LastByte` | projects/Gibbed.Antibirth.FileFormats/ArchiveEntry.cs:141-145 | inputs that differ only in their last byte hash differently |
| `AntibirthEntry.Hash32OfFold` | projects/Gibbed.Antibirth.FileFormats/ArchiveEntry.cs:119-148 | the whole-buffer hash is the byte loop from the length-dependent start |
| `StreamHelpers.BeforeNul` | projects/Gibbed.Rebirth.FileFormats/StreamHelpers.cs:40 | the trailing-NUL cut: a NUL-free prefix of the bytes, followed by a NUL whenever it is shorter than them |
| `StreamHelpers.Decoded` | projects/Gibbed.Rebirth.FileFormats/StreamHelpers.cs:40 | the string made of the bytes read is lossless and no longer than they are |
| `StreamHelpers.ReadString` | projects/Gibbed.Rebirth.FileFormats/StreamHelpers.cs:32-41 | a string read is lossless, and the read ends between 2 + its length and 2 + 65535 bytes after it starts |
| `StreamHelpers.WriteString` | projects/Gibbed.Rebirth.FileFormats/StreamHelpers.cs:43-63 | null is ArgumentNull, more than 65535 units ArgumentOutOfRange; otherwise 2 + length bytes |
| `StreamHelpers.PlainDecoded` | projects/Gibbed.Rebirth.FileFormats/StreamHelpers.cs:40-62 | the ASCII bytes of a NUL-free 7-bit string decode to the string itself |
| `StreamHelpers.DecodedIffPlain` | projects/Gibbed.Rebirth.FileFormats/StreamHelpers.cs:40-62 | a string's ASCII bytes decode to the string itself iff it has no NUL and nothing above 0x7F |
| `StreamHelpers.ReadWrittenAt` | projects/Gibbed.Rebirth.FileFormats/StreamHelpers.cs:32-63 | any written string reads as its ASCII bytes cut at the first NUL, consuming exactly what was written, wherever it sits |
| `StreamHelpers.ReadStringAt` | projects/Gibbed.Rebirth.FileFormats/StreamHelpers.cs:32-63 | a written lossless string reads back as itself, wherever it sits |
| `StreamHelpers.WriteStringReadBack` | projects/Gibbed.Rebirth.FileFormats/StreamHelpers.cs:32-63 | every string of at most 65535 units is written; what reads back is its decoded ASCII, and that is the string iff it is lossless |
| `StreamHelpers.LossyStrings` | projects/Gibbed.Rebirth.FileFormats/StreamHelpers.cs:40-62 | "a\0b" is written and read back as "a", and U+00E9 as "?" |
| `TriggerCodec.ReadTrigger` | Gibbed.Rebirth.FileFormats/Animation/Trigger.cs:33-39 | succeeds iff 8 bytes are present, else EndOfStream |
| `TriggerCodec.TriggerReadsBack` | Gibbed.Rebirth.FileFormats/Animation/Trigger.cs:33-50 | a written trigger reads back |
| `TriggerCodec.TriggerWritesBack` | Gibbed.Rebirth.FileFormats/Animation/Trigger.cs:33-50 | a read trigger writes back to the same 8 bytes |
| `TriggerCodec.TriggersRoundTrip` | Gibbed.Rebirth.FileFormats/Animation/Trigger.cs:33-50 | every sequence of triggers reads back |
| `NullFrameCodec.ReadNullFrame` | Gibbed.Rebirth.FileFormats/Animation/NullFrame.cs:46-65 | succeeds iff 54 bytes remain, else EndOfStream; the thirteen 32-bit fields are read in their stored order and Visible and Interpolated are true iff their bytes (20 and 53) are non-zero |
| `NullFrameCodec.NullFrameBytes` | Gibbed.Rebirth.FileFormats/Animation/NullFrame.cs:72-89 | Write always emits exactly 54 bytes |
| `NullFrameCodec.DecodedFields` | Gibbed.Rebirth.FileFormats/Animation/NullFrame.cs:46-65 | the five fields before Visible and the eight between the flags are the 32-bit words at bytes 0 and 21 |
| `NullFrameCodec.DecodeWritten` | Gibbed.Rebirth.FileFormats/Animation/NullFrame.cs:46-89 | decoding Write's 54 bytes gives the frame back, flags included |
| `NullFrameCodec.NullFrameReadsBackAt` | Gibbed.Rebirth.FileFormats/Animation/NullFrame.cs:46-89 | a frame written at p reads back as itself, ending 54 bytes on |
| `NullFrameCodec.NullFrameRoundTrips` | Gibbed.Rebirth.FileFormats/Animation/NullFrame.cs:46-89 | every null frame, written anywhere, reads back as itself with both flags |
| `NullFrameCodec.WrittenDecoded` | Gibbed.Rebirth.FileFormats/Animation/NullFrame.cs:46-89 | 54 bytes read and written again come back with each flag byte made 1 if non-zero and 0 otherwise, every other byte kept |
| `NullFrameCodec.NullFrameWritesBack` | Gibbed.Rebirth.FileFormats/Animation/NullFrame.cs:46-89 | Read then Write at any position: the frame's bytes with both flags normalised to 0 or 1 (ReadValueB8, WriteValueB8) |
| `NullFrameCodec.FlagWrittenAsOne` | Gibbed.Rebirth.FileFormats/Animation/NullFrame.cs:54-79 | a Visible byte of 2 is read as true and written back as 1, so Read then Write is not the identity on bytes |
| `NullFrameCodec.CountedFramesReadBack` | Gibbed.Rebirth.FileFormats/Animation/NullFrame.cs:46-89 | a counted array of frames reads back |
| `RootAnimationCodec.RootAnimationAt` | projects/Gibbed.Rebirth.FileFormats/Animation/RootAnimation.cs:33-50 | a read root animation has fewer than 5000 frames |
| `RootAnimationCodec.TooManyRootFrames` | projects/Gibbed.Rebirth.FileFormats/Animation/RootAnimation.cs:36-39 | a count of 5000 or more is Format, whatever follows |
| `RootAnimationCodec.ReadRootAnimation` | projects/Gibbed.Rebirth.FileFormats/Animation/RootAnimation.cs:33-50 | the Read loop returns RootAnimationAt |
| `RootAnimationCodec.WriteRootAnimation` | projects/Gibbed.Rebirth.FileFormats/Animation/RootAnimation.cs:57-68 | the Write loop returns RootAnimationBytes, which cannot fail |
| `RootAnimationCodec.RootAnimationRoundTrips` | projects/Gibbed.Rebirth.FileFormats/Animation/RootAnimation.cs:33-68 | what Read accepts writes and reads back |
| `RootAnimationCodec.WriteUnbounded` | projects/Gibbed.Rebirth.FileFormats/Animation/RootAnimation.cs:57-68 | Write accepts 5000 or more frames, which Read then rejects |
| `NullAnimationCodec.NullAnimationAt` | projects/Gibbed.Rebirth.FileFormats/Animation/NullAnimation.cs:35-56 | a read null animation has fewer than 5000 frames |
| `NullAnimationCodec.TooManyNullFrames` | projects/Gibbed.Rebirth.FileFormats/Animation/NullAnimation.cs:41-44 | a count of 5000 or more is Format |
| `NullAnimationCodec.ReadNullAnimation` | projects/Gibbed.Rebirth.FileFormats/Animation/NullAnimation.cs:35-56 | the Read loop returns NullAnimationAt |
| `NullAnimationCodec.WriteNullAnimation` | projects/Gibbed.Rebirth.FileFormats/Animation/NullAnimation.cs:63-77 | the Write loop returns NullAnimationBytes, which cannot fail |
| `NullAnimationCodec.NullAnimationRoundTrips` | projects/Gibbed.Rebirth.FileFormats/Animation/NullAnimation.cs:35-77 | what Read accepts writes and reads back |
| `NullAnimationCodec.WriteUnbounded` | projects/Gibbed.Rebirth.FileFormats/Animation/NullAnimation.cs:63-77 | Write accepts 5000 or more frames, which Read then rejects |
| `AnimationCodec.AnimationAt` | Gibbed.Rebirth.FileFormats/Animation/Animation.cs:39-88 | a read animation has a name, an accepted root, and fewer than 32 layer animations, null animations and triggers |
| `AnimationCodec.TooManyLayers` | Gibbed.Rebirth.FileFormats/Animation/Animation.cs:46-50 | a layer count of 32 or more is Format("too many animation layers"), before any layer is read |
| `AnimationCodec.TooManyNulls` | Gibbed.Rebirth.FileFormats/Animation/Animation.cs:57-61 | after a good layer array, a null-animation count of 32 or more is Format("too many null layers"), before any null animation is read |
| `AnimationCodec.TooManyTriggers` | Gibbed.Rebirth.FileFormats/Animation/Animation.cs:68-72 | after good layer and null arrays, a trigger count of 32 or more is Format("too many triggers"), before any trigger is read |
| `AnimationCodec.ArraysRejected` | Gibbed.Rebirth.FileFormats/Animation/Animation.cs:39-77 | after a good head, an array failure is Read's failure, with the same error |
| `AnimationCodec.ReadAnimation` | Gibbed.Rebirth.FileFormats/Animation/Animation.cs:39-88 | the three array loops return AnimationAt |
| `AnimationCodec.AnimationBytes` | Gibbed.Rebirth.FileFormats/Animation/Animation.cs:95-131 | a null name is ArgumentNull, a long one ArgumentOutOfRange; only the name and the layers can fail |
| `AnimationCodec.WriteAnimation` | Gibbed.Rebirth.FileFormats/Animation/Animation.cs:95-131 | the Write loops return AnimationBytes |
| `AnimationCodec.LayersReadBack` | Gibbed.Rebirth.FileFormats/Animation/Animation.cs:46-55 | a written layer array under the bound reads back |
| `AnimationCodec.NullsReadBack` | Gibbed.Rebirth.FileFormats/Animation/Animation.cs:57-66 | a written null-animation array under the bound reads back |
| `AnimationCodec.TriggersReadBack` | Gibbed.Rebirth.FileFormats/Animation/Animation.cs:68-77 | a written trigger array under the bound reads back |
| `AnimationCodec.AnimationRoundTrips` | Gibbed.Rebirth.FileFormats/Animation/Animation.cs:39-131 | what Read accepts (its name lossless) writes and reads back, given layer records that do |
| `AnimationCodec.Overflow` | Gibbed.Rebirth.FileFormats/Animation/Animation.cs:46-72 | no message iff all three arrays (a null one counting 0) are under 32 |
| `AnimationCodec.ArraysOverflow` | Gibbed.Rebirth.FileFormats/Animation/Animation.cs:46-72 | the three arrays as Write lays them out, one of them at 32 or more, are rejected with the message of the first such array |
| `AnimationCodec.WriteUnbounded` | Gibbed.Rebirth.FileFormats/Animation/Animation.cs:102-130 | Write does not enforce the bounds: an animation with 32 or more layers, null animations or triggers is written, and Read rejects those bytes wherever they sit with Format and the first over-bound array's message |
| `ContentCodec.NamedBytes` | projects/Gibbed.Rebirth.FileFormats/Animation/Content.cs:164-176 | a spritesheet, null or event writes iff its name does |
| `ContentCodec.LayerBytes` | projects/Gibbed.Rebirth.FileFormats/Animation/Content.cs:185-199 | a layer writes iff its name does |
| `ContentCodec.IdCheck` | projects/Gibbed.Rebirth.FileFormats/Animation/Content.cs:46-49 | a record passes iff its id is its index and below the table's bound |
| `ContentCodec.LayerCheck` | projects/Gibbed.Rebirth.FileFormats/Animation/Content.cs:59-67 | a layer passes iff its id is its index and below 32, and its spritesheet exists |
| `ContentCodec.ReadContent` | projects/Gibbed.Rebirth.FileFormats/Animation/Content.cs:37-108 | the Read loops return ContentAt |
| `ContentCodec.ReadIsValid` | projects/Gibbed.Rebirth.FileFormats/Animation/Content.cs:37-108 | read content is valid: ids numbered, layers drawing on existing sheets, at least one layer, every string lossless |
| `ContentCodec.NoLayersRejected` | projects/Gibbed.Rebirth.FileFormats/Animation/Content.cs:72-75 | a zero layer count is Format |
| `ContentCodec.TablesBytes` | projects/Gibbed.Rebirth.FileFormats/Animation/Content.cs:115-156 | Write as written: the four tables and no base path; it fails iff a record does |
| `ContentCodec.ContentBytes` | projects/Gibbed.Rebirth.FileFormats/Animation/Content.cs:39-156 | the corrected Write: the base path first (null is ArgumentNull), then the tables |
| `ContentCodec.WriteContent` | projects/Gibbed.Rebirth.FileFormats/Animation/Content.cs:115-156 | the Write loops return TablesBytes: the four counted tables and no base path, so a null base path is no error |
| `ContentCodec.NamedRoundTrips` | projects/Gibbed.Rebirth.FileFormats/Animation/Content.cs:164-176 | a spritesheet, null or event with a lossless name reads back wherever it is written |
| `ContentCodec.LayerRoundTrips` | projects/Gibbed.Rebirth.FileFormats/Animation/Content.cs:185-199 | a layer with a lossless name reads back wherever it is written |
| `ContentCodec.ContentRoundTrips` | projects/Gibbed.Rebirth.FileFormats/Animation/Content.cs:37-156 | valid content (every id numbered, every string lossless) is written by the corrected writer, base path first, and reads back |
| `ContentCodec.SmallestMisread` | projects/Gibbed.Rebirth.FileFormats/Animation/Content.cs:39-67 | wherever the path-less bytes sit, the reader takes their first count as a path length (reading an empty path), so the tables are read at the wrong offsets |
| `ContentCodec.WrittenAsSourceNotReadBack` | projects/Gibbed.Rebirth.FileFormats/Animation/Content.cs:115-156 | the smallest valid content, written as Content.Write writes it, reads back as Format("invalid spritesheet ID") wherever it sits |
| `ActorCodec.ActorAt` | projects/Gibbed.Rebirth.FileFormats/Animation/AnimatedActor.cs:34-50 | a content failure is passed on; a read actor has valid content, a default animation name and an animation array |
| `ActorCodec.ReadActor` | projects/Gibbed.Rebirth.FileFormats/Animation/AnimatedActor.cs:34-50 | the Read loop returns ActorAt |
| `ActorCodec.SourceActorBytes` | projects/Gibbed.Rebirth.FileFormats/Animation/AnimatedActor.cs:57-70 | Write as written, content through Content.Write: writes iff the tables, the default name and every animation do |
| `ActorCodec.ActorBytes` | projects/Gibbed.Rebirth.FileFormats/Animation/AnimatedActor.cs:57-70 | the corrected Write, content base path first: writes iff the content, the default name and every animation do; a null default name is ArgumentNull |
| `ActorCodec.CorrectedAddsBasePath` | projects/Gibbed.Rebirth.FileFormats/Animation/AnimatedActor.cs:59 | the corrected writer succeeds iff the base path and AnimatedActor.Write as written do, and its bytes are the base path followed by the as-written bytes |
| `ActorCodec.Smallest` | projects/Gibbed.Rebirth.FileFormats/Animation/AnimatedActor.cs:34-50 | the actor of the smallest content, an empty default name and no animations is one Read can return |
| `ActorCodec.SourceActorNotReadBack` | projects/Gibbed.Rebirth.FileFormats/Animation/AnimatedActor.cs:34-70 | wherever AnimatedActor.Write's bytes for the smallest actor sit, Read fails with Format("invalid spritesheet ID"), while the corrected writer's bytes for it read back |
| `ActorCodec.WriteActor` | projects/Gibbed.Rebirth.FileFormats/Animation/AnimatedActor.cs:57-70 | the Write loop returns SourceActorBytes: the content through Content.Write, then the name and the counted animations |
| `ActorCodec.ActorRoundTrips` | projects/Gibbed.Rebirth.FileFormats/Animation/AnimatedActor.cs:34-70 | what Read accepts (its strings lossless) is written by the corrected writer and reads back, given layer records that do |
| `AnimationCache.AddKeepsDistinct` | trunk/Gibbed.Rebirth.FileFormats/AnimationCacheBinaryFile.cs:66 | adding a new key keeps the keys distinct |
| `AnimationCache.SourceEntryBytes` | trunk/Gibbed.Rebirth.FileFormats/AnimationCacheBinaryFile.cs:51-52 | an entry as Serialize writes it succeeds iff AnimatedActor.Write as written does |
| `AnimationCache.SourceCacheBytes` | trunk/Gibbed.Rebirth.FileFormats/AnimationCacheBinaryFile.cs:44-54 | Serialize as written writes iff AnimatedActor.Write as written does for every actor |
| `AnimationCache.SourceCacheNotReadBack` | trunk/Gibbed.Rebirth.FileFormats/AnimationCacheBinaryFile.cs:44-68 | a cache of the smallest actor, written as Serialize writes it, reads back as Format("invalid spritesheet ID") with the dictionary left empty, though the corrected round trip applies to it |
| `AnimationCache.CacheBytes` | trunk/Gibbed.Rebirth.FileFormats/AnimationCacheBinaryFile.cs:44-54 | the corrected Serialize, each actor written base path first, writes iff every actor does |
| `AnimationCache.Deserialized` | trunk/Gibbed.Rebirth.FileFormats/AnimationCacheBinaryFile.cs:56-68 | a missing count keeps the old entries; after Clear the loaded keys are always distinct |
| `AnimationCache.AnimationCacheFile.constructor` | trunk/Gibbed.Rebirth.FileFormats/AnimationCacheBinaryFile.cs:39-42 | a new cache is empty |
| `AnimationCache.AnimationCacheFile.Add` | trunk/Gibbed.Rebirth.FileFormats/AnimationCacheBinaryFile.cs:66 | a present key is DuplicateKey with nothing changed; a new key is appended |
| `AnimationCache.AnimationCacheFile.Serialize` | trunk/Gibbed.Rebirth.FileFormats/AnimationCacheBinaryFile.cs:44-54 | the Write loop returns SourceCacheBytes of the entries: the count, then each key and its actor through AnimatedActor.Write |
| `AnimationCache.AnimationCacheFile.Deserialize` | trunk/Gibbed.Rebirth.FileFormats/AnimationCacheBinaryFile.cs:56-68 | the entries and outcome are Deserialized, including the entries added before a failure |
| `AnimationCache.CacheRoundTrips` | trunk/Gibbed.Rebirth.FileFormats/AnimationCacheBinaryFile.cs:44-68 | a cache with distinct keys and accepted actors, written by the corrected writer, reads back to the same entries in the same order |
| `AnimationCache.RepeatedKeyRejected` | trunk/Gibbed.Rebirth.FileFormats/AnimationCacheBinaryFile.cs:62-67 | a written repeated key stops loading with DuplicateKey, keeping the entries before it |
| `AnimationCache.ComputeNameHash` | trunk/Gibbed.Rebirth.FileFormats/AnimationCacheBinaryFile.cs:70-84 | a null path is ArgumentNull; otherwise djb2 over the path, without lower-casing |
| `AnimationCache.LowerPathHashesAlike` | trunk/Gibbed.Rebirth.FileFormats/AnimationCacheBinaryFile.cs:70-84 | on a lower-case path it agrees with the archive's hash A |
| `AnimationCache.HashSeesCase` | trunk/Gibbed.Rebirth.FileFormats/AnimationCacheBinaryFile.cs:70-84 | unlike the archive hash, it tells "A" from "a" |
| `StageBinary.EntityAt` | projects/Gibbed.Afterbirth.FileFormats/StageBinaryFile.cs:167-176 | an entity reads iff its 10 bytes are present |
| `StageBinary.DoorAt` | projects/Gibbed.Afterbirth.FileFormats/StageBinaryFile.cs:148-156 | a door reads iff its 5 bytes are present |
| `StageBinary.SpawnAt` | projects/Gibbed.Afterbirth.FileFormats/StageBinaryFile.cs:158-179 | a read spawn has an entity array |
| `StageBinary.SpawnBytes` | projects/Gibbed.Afterbirth.FileFormats/StageBinaryFile.cs:89-115 | a spawn writes iff it has at most 255 entities, else InvalidOperation |
| `StageBinary.RoomAt` | projects/Gibbed.Afterbirth.FileFormats/StageBinaryFile.cs:133-179 | a read room has door, spawn and entity arrays |
| `StageBinary.RoomBytes` | projects/Gibbed.Afterbirth.FileFormats/StageBinaryFile.cs:52-115 | a null name is ArgumentNull, a long one ArgumentOutOfRange, more than 255 doors, 65535 spawns or 255 entities InvalidOperation; otherwise it writes |
| `StageBinary.StageAt` | projects/Gibbed.Afterbirth.FileFormats/StageBinaryFile.cs:119-186 | a wrong signature is Format; every room read has its arrays |
| `StageBinary.StageBytes` | projects/Gibbed.Afterbirth.FileFormats/StageBinaryFile.cs:46-117 | the stage writes iff every room does |
| `StageBinary.Deserialized` | projects/Gibbed.Afterbirth.FileFormats/StageBinaryFile.cs:119-186 | the rooms are replaced only after the whole read succeeds |
| `StageBinary.ReadSpawn` | projects/Gibbed.Afterbirth.FileFormats/StageBinaryFile.cs:158-179 | the spawn loop returns SpawnAt |
| `StageBinary.ReadRoom` | projects/Gibbed.Afterbirth.FileFormats/StageBinaryFile.cs:133-179 | the room body returns RoomAt |
| `StageBinary.ReadSpawns` | projects/Gibbed.Afterbirth.FileFormats/StageBinaryFile.cs:158-179 | the spawn loop reads the n spawns |
| `StageBinary.ReadRooms` | projects/Gibbed.Afterbirth.FileFormats/StageBinaryFile.cs:131-180 | the room loop reads the n rooms |
| `StageBinary.ReadStage` | projects/Gibbed.Afterbirth.FileFormats/StageBinaryFile.cs:119-186 | the reader returns StageAt |
| `StageBinary.WriteRoom` | projects/Gibbed.Afterbirth.FileFormats/StageBinaryFile.cs:52-115 | the room body returns RoomBytes |
| `StageBinary.WriteRooms` | projects/Gibbed.Afterbirth.FileFormats/StageBinaryFile.cs:52-116 | the room loop writes every room in order |
| `StageBinary.WriteStage` | projects/Gibbed.Afterbirth.FileFormats/StageBinaryFile.cs:46-117 | the writer returns StageBytes |
| `StageBinary.StageBinaryFile.constructor` | projects/Gibbed.Afterbirth.FileFormats/StageBinaryFile.cs:41-44 | a new stage has no rooms |
| `StageBinary.StageBinaryFile.Serialize` | projects/Gibbed.Afterbirth.FileFormats/StageBinaryFile.cs:46-117 | returns StageBytes of the rooms |
| `StageBinary.StageBinaryFile.Deserialize` | projects/Gibbed.Afterbirth.FileFormats/StageBinaryFile.cs:119-186 | the rooms and outcome are Deserialized, so a failed read keeps the old rooms |
| `StageBinary.FillRooms` | projects/Gibbed.Afterbirth.FileFormats/StageBinaryFile.cs:79-113 | every room with its null arrays replaced by empty ones |
| `StageBinary.RoomNullsWrittenAsEmpty` | projects/Gibbed.Afterbirth.FileFormats/StageBinaryFile.cs:76-113 | a room with null arrays writes the same bytes as with empty ones |
| `StageBinary.StageNullsWrittenAsEmpty` | projects/Gibbed.Afterbirth.FileFormats/StageBinaryFile.cs:46-117 | the same for a whole stage |
| `StageBinary.EntityReadsBackAt` | projects/Gibbed.Afterbirth.FileFormats/StageBinaryFile.cs:104-113 | a written entity reads back |
| `StageBinary.DoorReadsBackAt` | projects/Gibbed.Afterbirth.FileFormats/StageBinaryFile.cs:79-87 | a written door reads back |
| `StageBinary.SpawnReadsBackAt` | projects/Gibbed.Afterbirth.FileFormats/StageBinaryFile.cs:89-115 | a written spawn with an entity array reads back |
| `StageBinary.RoomReadsBackAt` | projects/Gibbed.Afterbirth.FileFormats/StageBinaryFile.cs:52-115 | a written room with all its arrays and a lossless name reads back |
| `StageBinary.StageRoundTrips` | projects/Gibbed.Afterbirth.FileFormats/StageBinaryFile.cs:46-186 | a written stage whose room names are lossless reads back as its rooms with null arrays made empty, and as the very rooms when none is null |
| `StageBinary.SignatureSpellsSTB1` | projects/Gibbed.Afterbirth.FileFormats/StageBinaryFile.cs:32 | the signature's little-endian bytes spell "STB1" |

## Left out

- Floating point: null-frame and layer-frame fields, room weights and entity weights are kept as their 32-bit patterns. No float arithmetic happens on them.
- `LayerFrame` / layer animations: an animation's layer records are a type parameter with a reader and a writer. `trunk/Gibbed.Rebirth.FileFormats/Animation/LayerFrame.cs` is not part of this model.
- Gibbed.IO stream helpers (`ReadValueU32`, `ReadValueB8`, `WriteValueS32`, …): modelled as little- or big-endian byte encodings over a cursor. `ReadValueB8` is "byte != 0" and `WriteValueB8` writes 1 or 0.
- I/O: streams are byte sequences with a position. The partial output a throwing writer has already pushed to its stream is not modelled; the writers return either all bytes or the exception.
- Allocation: a huge record count that would throw OutOfMemory in .NET reads records until the stream ends.
- The raw-deflate inflater of the MiniZ branch and the `LZW.Decompress` called by `ArchiveEntry.Read` are function parameters. That second LZW class is not part of this model; module `Lzw` models the trunk decoder.
- `BitReader.Position` setter and `Length` getter are not modelled; only the reading path is.
- RebirthArchive.LowerChar: models `ToLowerInvariant` for ASCII letters only, because the archive's paths are ASCII and culture tables are outside Dafny.
- Bogocrypt.Bogocrypt1: requires the padded range to lie inside the array; the C# IndexOutOfRange on a shorter array is not modelled.
- Bogocrypt.Bogocrypt2: requires the padded range to lie inside the array; the C# IndexOutOfRange on a shorter array is not modelled.
- RebirthEntry.ReadInto: a stream read returns min(n, available) bytes, as a MemoryStream does; streams that return fewer are not modelled.
- AntibirthArchive.WalkEntries: follows at most a given number of links and then ends with a fuel failure, because the C# walk has no cycle check and can loop forever.
- AntibirthArchive.WalkChunks: the same fuel bound for the chunk list.
- AntibirthArchive.WalkEntries: `basePosition + entryOffset` (projects/Gibbed.Antibirth.FileFormats/ArchiveFile.cs:106) is an unbounded sum, while in C# it is a `long` addition that wraps. An offset near 2^63 that C# turns into a negative position, and so ArgumentOutOfRange, ends here with EndOfStream instead; only the exception kind on a corrupt archive differs.
- AntibirthArchive.WalkChunks: the same unbounded sums for `chunkOffset + 8` and `basePosition + chunkOffset` (projects/Gibbed.Antibirth.FileFormats/ArchiveFile.cs:134-135), which wrap in C#.
- AntibirthArchive.WalkRecords: the entry loop uses the same unbounded offset sums as WalkEntries.
- AntibirthArchive.ReadChunkOffsets: the chunk loop uses the same unbounded offset sums as WalkChunks.
- AntibirthEntry.ChunkData: the chunk position `archive.BasePosition + chunkOffset` (projects/Gibbed.Antibirth.FileFormats/ArchiveEntry.cs:75) is an unbounded sum, while in C# it is a `long` addition that wraps. An offset near 2^63 that C# turns into a negative position, and so ArgumentOutOfRange, gives EndOfStream here instead, or success when the chunk's size is 0.
- AntibirthEntry.EntryRead: reads its chunks through ChunkData, so it has the same unbounded chunk position; only the outcome on a corrupt chunk offset near 2^63 differs.
- AntibirthEntry.Read: the chunk loop uses the same unbounded chunk position as EntryRead.
- The unreachable `blockLength == 0` throw in the Bogocrypt1 branch (projects/Gibbed.Rebirth.FileFormats/ArchiveEntry.cs:115-118) and the trailing throw after the LZW loop (trunk/Gibbed.Rebirth.FileFormats/ArchiveCompression.cs:200-203) are proved unreachable and so have no error path.
- AnimationCache.AnimationCacheFile.Serialize: assumes the dictionary enumerates in insertion order, which holds for a .NET Dictionary with no removals.
- StageBinary.StageRoundTrips: the read-back is stated for fewer than 2^32 rooms and maps null arrays to empty ones, because the writer writes both as a zero count.
- StreamHelpers.WriteString: Encoding.ASCII is modelled as one byte per UTF-16 code unit. The case where .NET's encoder fallback replaces a surrogate pair by a single '?' is not modelled.
- ActorCodec.ActorRoundTrips: proved for the corrected writer. AnimatedActor.Write as written is modelled as SourceActorBytes, and its output is not read back (see Findings).
- AnimationCache.CacheRoundTrips: proved for the corrected writer. Serialize as written is modelled as SourceCacheBytes, and its output is not read back (see Findings).
- Isaac: the C# `int` arithmetic is modelled as wrapping 32-bit unsigned arithmetic, which gives the same bits.

## Findings

| source | as written | input that shows it | evidently intended | confidence | as-written member | corrected member |
|---|---|---|---|---|---|---|
| projects/Gibbed.Rebirth.FileFormats/Animation/Content.cs:115-156 | `Content.Write` writes the four tables but never the `BaseSpritesheetPath` that `Content.Read` reads first | one spritesheet (id 0, empty name), one layer (id 0, sheet 0, empty name), no nulls or events: the written bytes read back as Format("invalid spritesheet ID") | write the base path as a string before the tables, so Read gets back what Write wrote | not executed | `ContentCodec.TablesBytes`, `ContentCodec.WrittenAsSourceNotReadBack` | `ContentCodec.ContentBytes`, `ContentCodec.ContentRoundTrips` |
| projects/Gibbed.Rebirth.FileFormats/Animation/AnimatedActor.cs:59 | `AnimatedActor.Write` writes its content with `Content.Write`, so the actor's bytes lack the base path that `AnimatedActor.Read` reads first | the smallest content, an empty default name and no animations: the written bytes read back as Format("invalid spritesheet ID") | write the content base path first, so Read gets back what Write wrote | not executed | `ActorCodec.SourceActorBytes`, `ActorCodec.SourceActorNotReadBack` | `ActorCodec.ActorBytes`, `ActorCodec.ActorRoundTrips` |
| trunk/Gibbed.Rebirth.FileFormats/AnimationCacheBinaryFile.cs:44-54 | `Serialize` writes each actor with `AnimatedActor.Write`, so no non-empty cache it writes is read back by `Deserialize`. Trunk's own `Animation.AnimatedActor` is not part of this model; the one in projects/Gibbed.Rebirth.FileFormats/Animation/AnimatedActor.cs stands in for it | one entry whose actor has the smallest content, an empty default name and no animations: Deserialize throws Format("invalid spritesheet ID") and leaves the dictionary empty | write each actor's content base path first, so Deserialize gets back the dictionary Serialize wrote | not executed | `AnimationCache.SourceCacheBytes`, `AnimationCache.SourceCacheNotReadBack` | `AnimationCache.CacheBytes`, `AnimationCache.CacheRoundTrips` |
