/**
 * ArchiveFile.Deserialize of the Rebirth container: the 14-byte header ("ARCH000",
 * the compression mode, the index offset and the record count, little-endian) and
 * the index of 20-byte entry records it points at. The stream is the byte sequence
 * `input`, the archive starting at `base`; the index offset counts from `base`.
 */
module RebirthIndex {
  import opened Wrappers
  import opened ByteIO
  import opened RebirthArchive

  /** "ARCH000" in ASCII. */
  const SIGNATURE: Bytes := [0x41, 0x52, 0x43, 0x48, 0x30, 0x30, 0x30]
  const HEADER_SIZE: nat := 14
  const RECORD_SIZE: nat := 20

  /** The header fields after the signature. */
  datatype Header = Header(mode: bv8, indexOffset: u32, count: u16)

  /** The header read: signature, mode byte, index offset, record count. */
  function ReadHeader(input: Bytes, base: nat): (r: Result<Header>)
    ensures r.Ok? ==> base + HEADER_SIZE <= |input| && input[base..base + 7] == SIGNATURE
    ensures r.Ok? ==> r.value.mode == input[base + 7]
    ensures base + HEADER_SIZE <= |input| && input[base..base + 7] == SIGNATURE ==> r.Ok?
    ensures base + 7 <= |input| && input[base..base + 7] != SIGNATURE ==> r == Err(Format(""))
    ensures base + 7 > |input| ==> r == Err(EndOfStream)
  {
    var magic :- ReadBytes(input, base, 7);
    if magic.0 != SIGNATURE then Err(Format(""))
    else
      var mode :- ReadU8(input, magic.1);
      var offset :- ReadU32N(input, mode.1, Little);
      var count :- ReadU16N(input, offset.1, Little);
      Ok(Header(mode.0, offset.0, count.0))
  }

  /** One index record: hash A, hash B, offset, length, checksum, each a little-endian u32. */
  function ReadRecord(input: Bytes, p: nat): (r: Result<(Entry, nat)>)
    ensures r.Ok? <==> p + RECORD_SIZE <= |input|
    ensures r.Ok? ==> r.value.1 == p + RECORD_SIZE
  {
    var a :- ReadU32(input, p, Little);
    var b :- ReadU32(input, a.1, Little);
    var offset :- ReadU32(input, b.1, Little);
    var length :- ReadU32(input, offset.1, Little);
    var checksum :- ReadU32(input, length.1, Little);
    Ok((Entry(a.0, b.0, offset.0, length.0, checksum.0), checksum.1))
  }

  /** `n` consecutive records from `p`. */
  function ReadRecords(input: Bytes, p: nat, n: nat): (r: Result<seq<Entry>>)
    ensures r.Ok? <==> n == 0 || p + RECORD_SIZE * n <= |input|
    ensures r.Ok? ==> |r.value| == n
    decreases n
  {
    if n == 0 then Ok([])
    else
      var e :- ReadRecord(input, p);
      var rest :- ReadRecords(input, e.1, n - 1);
      Ok([e.0] + rest)
  }

  /**
   * The index the header describes: no records means no seek; otherwise the records
   * start `indexOffset` bytes past the archive's start, and a seek past the end of
   * the stream makes the first read fail.
   */
  function ReadIndex(input: Bytes, base: nat, h: Header): (r: Result<seq<Entry>>)
    ensures r.Ok? ==> |r.value| == h.count
    ensures h.count == 0 ==> r == Ok([])
    ensures h.count > 0 ==> (r.Ok? <==> base + h.indexOffset + RECORD_SIZE * h.count <= |input|)
  {
    if h.count == 0 then Ok([])
    else if base + h.indexOffset > |input| then Err(EndOfStream)
    else ReadRecords(input, base + h.indexOffset, h.count)
  }

  /** The outcome of a whole parse: the mode and the entries. */
  function Deserialized(input: Bytes, base: nat): (r: Result<(bv8, seq<Entry>)>)
  {
    var h :- ReadHeader(input, base);
    var entries :- ReadIndex(input, base, h);
    Ok((h.mode, entries))
  }

  // ---------------------------------------------------------------------------
  // The layout the reader expects, written out

  function EncodeRecord(e: Entry): (r: Bytes)
    ensures |r| == RECORD_SIZE
  {
    EncodeU32(e.nameHashA, Little) + EncodeU32(e.nameHashB, Little) + EncodeU32(e.offset, Little)
      + EncodeU32(e.length, Little) + EncodeU32(e.checksum, Little)
  }

  function EncodeRecords(es: seq<Entry>): (r: Bytes)
    ensures |r| == RECORD_SIZE * |es|
  {
    if es == [] then [] else EncodeRecord(es[0]) + EncodeRecords(es[1..])
  }

  /** A header whose index follows it directly, then the index. */
  function EncodeArchive(mode: bv8, es: seq<Entry>): (r: Bytes)
    requires |es| < 0x1_0000
    ensures |r| == HEADER_SIZE + RECORD_SIZE * |es|
  {
    SIGNATURE + [mode] + EncodeU32N(HEADER_SIZE, Little) + EncodeU16N(|es|, Little) + EncodeRecords(es)
  }

  lemma ReadRecordAt(s: Bytes, p: nat, e: Entry)
    requires At(s, p, EncodeRecord(e))
    ensures ReadRecord(s, p) == Ok((e, p + RECORD_SIZE))
  {
    var w0, w1, w2, w3, w4 := EncodeU32(e.nameHashA, Little), EncodeU32(e.nameHashB, Little),
      EncodeU32(e.offset, Little), EncodeU32(e.length, Little), EncodeU32(e.checksum, Little);
    AtSplit(s, p, w0 + w1 + w2 + w3, w4);
    AtSplit(s, p, w0 + w1 + w2, w3);
    AtSplit(s, p, w0 + w1, w2);
    AtSplit(s, p, w0, w1);
    ReadU32At(s, p, e.nameHashA, Little);
    ReadU32At(s, p + 4, e.nameHashB, Little);
    ReadU32At(s, p + 8, e.offset, Little);
    ReadU32At(s, p + 12, e.length, Little);
    ReadU32At(s, p + 16, e.checksum, Little);
  }

  lemma {:induction false} ReadRecordsAt(s: Bytes, p: nat, es: seq<Entry>)
    requires At(s, p, EncodeRecords(es))
    ensures ReadRecords(s, p, |es|) == Ok(es)
    decreases |es|
  {
    if es != [] {
      AtSplit(s, p, EncodeRecord(es[0]), EncodeRecords(es[1..]));
      ReadRecordAt(s, p, es[0]);
      ReadRecordsAt(s, p + RECORD_SIZE, es[1..]);
      assert [es[0]] + es[1..] == es;
    }
  }

  /** An archive laid out as the reader expects parses back to its mode and entries, wherever it starts. */
  lemma DeserializeEncoded(pre: Bytes, mode: bv8, es: seq<Entry>, post: Bytes)
    requires |es| < 0x1_0000
    ensures Deserialized(pre + EncodeArchive(mode, es) + post, |pre|) == Ok((mode, es))
  {
    var s := pre + EncodeArchive(mode, es) + post;
    var p := |pre|;
    var w0, w1 := EncodeU32N(HEADER_SIZE, Little), EncodeU16N(|es|, Little);
    assert At(s, p, SIGNATURE + [mode] + w0 + w1 + EncodeRecords(es)) by {
      assert s[p..p + |EncodeArchive(mode, es)|] == EncodeArchive(mode, es);
      AtSlice(s, p, EncodeArchive(mode, es));
    }
    AtSplit(s, p, SIGNATURE + [mode] + w0 + w1, EncodeRecords(es));
    AtSplit(s, p, SIGNATURE + [mode] + w0, w1);
    AtSplit(s, p, SIGNATURE + [mode], w0);
    AtSplit(s, p, SIGNATURE, [mode]);
    ReadBytesAt(s, p, SIGNATURE);
    ReadU8At(s, p + 7, mode);
    ReadU32NAt(s, p + 8, HEADER_SIZE, Little);
    ReadU16NAt(s, p + 12, |es|, Little);
    assert ReadHeader(s, p) == Ok(Header(mode, HEADER_SIZE, |es|));
    ReadRecordsAt(s, p + HEADER_SIZE, es);
  }

  // ---------------------------------------------------------------------------
  // The archive object

  class ArchiveFile {
    var endian: Endian
    var mode: bv8
    var entries: seq<Entry>

    /** A new archive: no entries, the fields at their default values. */
    constructor ()
      ensures endian == Little && mode == 0 && entries == []
    {
      endian := Little;
      mode := 0;
      entries := [];
    }

    /** Serialize is not implemented by the original. */
    method Serialize() returns (r: Result<Bytes>)
      ensures r == Err(NotImplemented)
    {
      r := Err(NotImplemented);
    }

    /**
     * Deserialize: a bad header leaves the archive as it was; a good one sets the
     * endian and mode and clears the entries before the index is read, so a short
     * index leaves the archive with none.
     */
    method Deserialize(input: Bytes, base: nat) returns (r: Result<()>)
      modifies this
      ensures var h := ReadHeader(input, base);
        h.Err? ==> r == Err(h.error) && endian == old(endian) && mode == old(mode) && entries == old(entries)
      ensures var h := ReadHeader(input, base);
        h.Ok? ==> endian == Little && mode == h.value.mode
      ensures var d := Deserialized(input, base);
        (r.Ok? <==> d.Ok?) && (d.Err? ==> r == Err(d.error))
      ensures var d := Deserialized(input, base);
        entries == if d.Ok? then d.value.1 else if ReadHeader(input, base).Ok? then [] else old(entries)
    {
      var h := ReadHeader(input, base);
      if h.Err? {
        return Err(h.error);
      }
      endian := Little;
      mode := h.value.mode;
      entries := [];
      var index := ReadEntries(input, base, h.value);
      if index.Err? {
        return Err(index.error);
      }
      entries := index.value;
      return Ok(());
    }
  }

  /** The index read of Deserialize: no records means no seek; otherwise seek, then read the records. */
  method ReadEntries(input: Bytes, base: nat, h: Header) returns (r: Result<seq<Entry>>)
    ensures r == ReadIndex(input, base, h)
  {
    if h.count == 0 {
      return Ok([]);
    }
    var start: nat := base + h.indexOffset;
    if start > |input| {
      return Err(EndOfStream);
    }
    r := ReadRecordArray(input, start, h.count);
  }

  /** The records go into an array of `count` entries, one by one. */
  method ReadRecordArray(input: Bytes, start: nat, count: nat) returns (r: Result<seq<Entry>>)
    requires start <= |input|
    ensures r == ReadRecords(input, start, count)
  {
    var records := new Entry[count](_ => Entry(0, 0, 0, 0, 0));
    ghost var target := ReadRecords(input, start, count);
    ghost var rest := target;
    var p := start;
    var i := 0;
    assert records[..0] == [];
    PrefixedNone(target);
    while i < count
      invariant 0 <= i <= count && p == start + RECORD_SIZE * i <= |input|
      invariant RestIs(input, p, count - i, rest) && target == Prefixed(records[..i], rest)
    {
      var e := ReadOne(input, p);
      ghost var rest' := RecordsStep(input, p, count - i, e, rest);
      if e.Err? {
        return Err(e.error);
      }
      PrefixedAppend(records[..i], e.value.0, rest');
      records[i] := e.value.0;
      assert records[..i + 1] == records[..i] + [e.value.0];
      p := e.value.1;
      i := i + 1;
      rest := rest';
    }
    assert rest == Ok([]) by {
      assert ReadRecords(input, p, 0) == Ok([]);
    }
    assert records[..count] == records[..] == records[..] + [];
    return Ok(records[..]);
  }

  /** The next `n` records from `p` read to `r`; the quantifier keeps the record decoding out of sight. */
  ghost predicate RestIs(input: Bytes, p: nat, n: nat, r: Result<seq<Entry>>)
  {
    forall q: nat | q == p :: ReadRecords(input, q, n) == r
  }

  ghost predicate RecordIs(input: Bytes, p: nat, r: Result<(Entry, nat)>)
  {
    forall q: nat | q == p :: ReadRecord(input, q) == r
  }

  /** One record read from the stream (five ReadValueU32 calls). */
  method ReadOne(input: Bytes, p: nat) returns (r: Result<(Entry, nat)>)
    ensures RecordIs(input, p, r)
    ensures r.Ok? <==> p + RECORD_SIZE <= |input|
    ensures r.Ok? ==> r.value.1 == p + RECORD_SIZE
  {
    r := ReadRecord(input, p);
  }

  /** Reading `n > 0` records is reading one, then the other `n - 1`. */
  lemma RecordsStep(input: Bytes, p: nat, n: nat, e: Result<(Entry, nat)>, rest: Result<seq<Entry>>)
    returns (rest': Result<seq<Entry>>)
    requires n > 0 && RecordIs(input, p, e) && RestIs(input, p, n, rest)
    ensures e.Err? ==> rest == Err(e.error)
    ensures e.Ok? ==> RestIs(input, e.value.1, n - 1, rest') && rest == Prefixed([e.value.0], rest')
  {
    assert ReadRecord(input, p) == e;
    assert ReadRecords(input, p, n) == rest;
    rest' := if e.Ok? then ReadRecords(input, e.value.1, n - 1) else rest;
  }
}
