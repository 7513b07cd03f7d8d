/**
 * The per-entry decode dispatch of the Rebirth container: ArchiveEntry.Read, which
 * takes the compression mode and endian from the archive, and its copy
 * ArchiveCompression.ReadEntry in the unpacker, which takes them as arguments. The
 * entry's bytes start at `pos` in the stream `input`. The LZW.Decompress these call
 * is a different class from the trunk decoder of module Lzw and is not part of this
 * model; it is a parameter, and so is the raw-deflate inflater.
 */
module RebirthRead {
  import opened Wrappers
  import opened ByteIO
  import opened Arith
  import opened Bogocrypt
  import opened RebirthArchive
  import opened RebirthEntry
  import opened RebirthMiniZ
  import opened RebirthIndex
  import Isaac

  /** The compression modes (ArchiveCompressionMode). */
  const BOGOCRYPT1: bv8 := 0
  const LZW: bv8 := 1
  const MINIZ: bv8 := 2
  const BOGOCRYPT2: bv8 := 5

  /** LZW.Decompress(input at pos, length, endian): the decoded bytes or its exception. */
  type Lzw = (Bytes, nat, nat, Endian) -> Result<Bytes>

  /** The decoded bytes of `entry` under `mode`, or the exception the branch raises. */
  ghost function Decoded(input: Bytes, pos: nat, entry: Entry, mode: bv8, endian: Endian,
                         lzw: Lzw, inflate: Bytes -> Result<Bytes>): (r: Result<Bytes>)
    requires pos <= |input|
    ensures mode != BOGOCRYPT1 && mode != LZW && mode != MINIZ && mode != BOGOCRYPT2 ==> r == Err(NotSupported)
    ensures mode != LZW && r.Ok? ==> |r.value| == entry.length as int
  {
    if mode == BOGOCRYPT1 then Bogocrypt1Entry(input, pos, entry.length as int, entry.BogocryptKey())
    else if mode == LZW then lzw(input, pos, entry.length as int, endian)
    else if mode == MINIZ then MiniZEntry(input, pos, entry, endian, inflate)
    else if mode == BOGOCRYPT2 then Bogocrypt2Entry(input, pos, entry.length as int)
    else Err(NotSupported)
  }

  /** The Bogocrypt1 branch: `length` bytes under the entry's key; the output has exactly that many. */
  function Bogocrypt1Entry(input: Bytes, pos: nat, length: nat, key: bv32): (r: Result<Bytes>)
    requires pos <= |input|
    ensures r.Ok? ==> |r.value| == length
  {
    Bogo1BlocksLength(input, pos, length, key);
    var b :- Bogo1Blocks(input, pos, length, key, Zeros(BLOCK), []);
    Ok(b.0)
  }

  /** The Bogocrypt2 branch: `length` bytes, the table XOR on all but the raw tail. */
  function Bogocrypt2Entry(input: Bytes, pos: nat, length: nat): (r: Result<Bytes>)
    requires pos <= |input|
    ensures r.Ok? ==> |r.value| == length
  {
    Bogo2BlocksLength(input, pos, length, []);
    var b :- Bogo2Blocks(input, pos, length, []);
    Ok(b.0)
  }

  /** The MiniZ branch, from a zeroed buffer and output and the generator GetISAAC gives the entry. */
  ghost function MiniZEntry(input: Bytes, pos: nat, entry: Entry, endian: Endian, inflate: Bytes -> Result<Bytes>): (r: Result<Bytes>)
    requires pos <= |input|
    ensures r.Ok? ==> |r.value| == entry.length as int
  {
    MiniZBlocks(input, pos, endian, entry.length as int, inflate,
                Blocks(Zeros(BUFFER), [], true, EntryKeys(entry.nameHashB)))
  }

  /** ReadEntry: the four-way dispatch on an explicit mode and endian. */
  method ReadEntry(input: Bytes, pos: nat, entry: Entry, mode: bv8, endian: Endian,
                   lzw: Lzw, inflate: Bytes -> Result<Bytes>) returns (r: Result<Bytes>)
    requires pos <= |input|
    ensures r == Decoded(input, pos, entry, mode, endian, lzw, inflate)
  {
    if mode == BOGOCRYPT1 {
      r := Bogocrypt1Branch(input, pos, entry.length as int, entry.BogocryptKey());
    } else if mode == LZW {
      r := lzw(input, pos, entry.length as int, endian);
    } else if mode == MINIZ {
      r := MiniZBranch(input, pos, entry, endian, inflate);
    } else if mode == BOGOCRYPT2 {
      r := Bogocrypt2Branch(input, pos, entry.length as int);
    } else {
      r := Err(NotSupported);
    }
  }

  method Bogocrypt1Branch(input: Bytes, pos: nat, length: u32, key: bv32) returns (r: Result<Bytes>)
    requires pos <= |input|
    ensures r == Bogocrypt1Entry(input, pos, length, key)
  {
    var b := ReadBogocrypt1(input, pos, length, key);
    r := if b.Ok? then Ok(b.value.0) else Err(b.error);
  }

  method Bogocrypt2Branch(input: Bytes, pos: nat, length: u32) returns (r: Result<Bytes>)
    requires pos <= |input|
    ensures r == Bogocrypt2Entry(input, pos, length)
  {
    var b := ReadBogocrypt2(input, pos, length);
    r := if b.Ok? then Ok(b.value.0) else Err(b.error);
  }

  method MiniZBranch(input: Bytes, pos: nat, entry: Entry, endian: Endian, inflate: Bytes -> Result<Bytes>)
    returns (r: Result<Bytes>)
    requires pos <= |input|
    ensures r == MiniZEntry(input, pos, entry, endian, inflate)
  {
    r := ReadMiniZ(input, pos, endian, entry, entry.length as int, inflate, EntryKeys(entry.nameHashB));
  }

  /** ArchiveEntry.Read: the same dispatch with the archive's mode and endian. */
  method Read(input: Bytes, pos: nat, entry: Entry, archive: ArchiveFile,
              lzw: Lzw, inflate: Bytes -> Result<Bytes>) returns (r: Result<Bytes>)
    requires pos <= |input|
    ensures r == Decoded(input, pos, entry, archive.mode, archive.endian, lzw, inflate)
  {
    r := ReadEntry(input, pos, entry, archive.mode, archive.endian, lzw, inflate);
  }

  // ---------------------------------------------------------------------------
  // What the branches compute

  /** A Bogocrypt1 entry decodes exactly when its `length` bytes are in the stream. */
  lemma Bogocrypt1Ok(input: Bytes, pos: nat, length: nat, key: bv32)
    requires pos <= |input|
    ensures Bogocrypt1Entry(input, pos, length, key).Ok? <==> pos + length <= |input|
  {
    Bogo1BlocksOk(input, pos, length, key);
  }

  /**
   * With its padding to whole words present, a Bogocrypt1 entry is the Bogo1
   * deciphering of the padded bytes, cut to `length`.
   */
  lemma Bogocrypt1Value(input: Bytes, pos: nat, length: nat, key: bv32)
    requires pos + 4 * Run(length) <= |input|
    ensures Bogocrypt1Entry(input, pos, length, key) == Ok(Bogo1(input[pos..pos + 4 * Run(length)], key, Run(length))[..length])
  {
    var b := Bogo1Blocks(input, pos, length, key, Zeros(BLOCK), []);
    Bogo1BlocksValue(input, pos, length, key);
    assert b.Ok?;
  }

  /** A Bogocrypt2 entry whose `length` bytes are not all in the stream is EndOfStream. */
  lemma Bogocrypt2Short(input: Bytes, pos: nat, length: nat)
    requires pos <= |input| < pos + length
    ensures Bogocrypt2Entry(input, pos, length) == Err(EndOfStream)
  {
    Bogo2BlocksValue(input, pos, length, []);
  }

  /**
   * A Bogocrypt2 entry whose `length` bytes are in the stream decodes to the table
   * XOR of all of them but the raw tail, then the raw tail.
   */
  lemma Bogocrypt2Value(input: Bytes, pos: nat, length: nat)
    requires pos + length <= |input|
    ensures var c := length - RawTail(length);
      Bogocrypt2Entry(input, pos, length) == Ok(Bogo2(input[pos..pos + c]) + input[pos + c..pos + length])
  {
    var c := length - RawTail(length);
    Bogo2BlocksValue(input, pos, length, []);
    assert [] + Bogo2(input[pos..pos + c]) == Bogo2(input[pos..pos + c]);
  }

  /**
   * Packing for Bogocrypt1: `plain`, padded to whole words with any bytes and
   * enciphered with the key, decodes back to `plain`, wherever it sits in the stream.
   */
  lemma Bogocrypt1Packed(pre: Bytes, plain: Bytes, pad: Bytes, post: Bytes, key: bv32)
    requires |plain| + |pad| == 4 * Run(|plain|)
    ensures var packed := Unbogo1(plain + pad, key, Run(|plain|));
      Bogocrypt1Entry(pre + packed + post, |pre|, |plain|, key) == Ok(plain)
  {
    var n := Run(|plain|);
    var packed := Unbogo1(plain + pad, key, n);
    var input := pre + packed + post;
    assert input[|pre|..|pre| + 4 * n] == packed;
    Bogocrypt1Value(input, |pre|, |plain|, key);
    Bogo1RoundTrip(plain + pad, key, n);
    assert (plain + pad)[..|plain|] == plain;
  }

  /**
   * Packing for Bogocrypt2: `plain` with all but its raw tail table-XORed decodes
   * back to `plain`, wherever it sits in the stream.
   */
  lemma Bogocrypt2Packed(pre: Bytes, plain: Bytes, post: Bytes)
    ensures var c := |plain| - RawTail(|plain|);
      Bogocrypt2Entry(pre + (Bogo2(plain[..c]) + plain[c..]) + post, |pre|, |plain|) == Ok(plain)
  {
    var c := |plain| - RawTail(|plain|);
    var packed := Bogo2(plain[..c]) + plain[c..];
    var input := pre + packed + post;
    var p := |pre|;
    assert input[p..p + c] == Bogo2(plain[..c]);
    assert input[p + c..p + |plain|] == plain[c..];
    Bogocrypt2Value(input, p, |plain|);
    Bogo2Involution(plain[..c]);
    assert plain[..c] + plain[c..] == plain;
  }
}
