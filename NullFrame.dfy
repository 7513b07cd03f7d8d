/**
 * Animation.NullFrame: twelve f32 fields, the s32 Delay and the two b8 flags Visible
 * and Interpolated, 54 bytes in all, every multi-byte field in the animation's endian.
 * The floating-point fields and Delay are kept as their 32-bit patterns, read as
 * unsigned numbers. The flags are
 * booleans: ReadValueB8 reads any non-zero byte as true and WriteValueB8 writes 1 or 0,
 * so a frame read and written again has its flag bytes made 0 or 1 (NullFrameWritesBack).
 */
module NullFrameCodec {
  import opened Wrappers
  import opened ByteIO
  import opened Arith
  import opened Records

  const NULL_FRAME_SIZE: nat := 54

  /** Where Visible and Interpolated sit in a frame's 54 bytes. */
  const VISIBLE_OFFSET: nat := 20
  const INTERPOLATED_OFFSET: nat := 53

  datatype NullFrame = NullFrame(
    xPosition: u32, yPosition: u32, xScale: u32, yScale: u32,
    delay: u32, visible: bool,
    redTint: u32, greenTint: u32, blueTint: u32, alphaTint: u32,
    redOffset: u32, greenOffset: u32, blueOffset: u32, rotation: u32,
    interpolated: bool)

  /** The 32-bit field whose four bytes start at i. */
  function Word(b: Bytes, i: nat, e: Endian): u32
    requires i + 4 <= |b|
  {
    DecodeU32N(b[i..i + 4], e)
  }

  /** The n 32-bit fields stored one after another from i. */
  function WordsAt(b: Bytes, i: nat, n: nat, e: Endian): (r: seq<u32>)
    requires i + 4 * n <= |b|
    ensures |r| == n
  {
    seq(n, k requires 0 <= k < n => Word(b, i + 4 * k, e))
  }

  /** 32-bit fields written one after another: byte j is byte j % 4 of field j / 4. */
  function Words(ws: seq<u32>, e: Endian): (r: Bytes)
    ensures |r| == 4 * |ws|
  {
    seq(4 * |ws|, j requires 0 <= j < 4 * |ws| => EncodeU32N(ws[j / 4], e)[j % 4])
  }

  /** The fields before Visible: XPosition, YPosition, XScale, YScale and Delay. */
  function HeadWords(f: NullFrame): (r: seq<u32>)
  {
    [f.xPosition, f.yPosition, f.xScale, f.yScale, f.delay]
  }

  /** The fields between Visible and Interpolated: the four tints, the three offsets and Rotation. */
  function TailWords(f: NullFrame): (r: seq<u32>)
  {
    [f.redTint, f.greenTint, f.blueTint, f.alphaTint, f.redOffset, f.greenOffset, f.blueOffset, f.rotation]
  }

  /** A frame's fields from its 54 bytes: each flag is true iff its byte is non-zero. */
  function DecodeNullFrame(b: Bytes, e: Endian): NullFrame
    requires |b| == NULL_FRAME_SIZE
  {
    NullFrame(Word(b, 0, e), Word(b, 4, e), Word(b, 8, e), Word(b, 12, e), Word(b, 16, e),
              b[VISIBLE_OFFSET] != 0,
              Word(b, 21, e), Word(b, 25, e), Word(b, 29, e), Word(b, 33, e),
              Word(b, 37, e), Word(b, 41, e), Word(b, 45, e), Word(b, 49, e),
              b[INTERPOLATED_OFFSET] != 0)
  }

  /** The decoded fields are the five words before Visible and the eight between the flags. */
  lemma DecodedFields(b: Bytes, e: Endian)
    requires |b| == NULL_FRAME_SIZE
    ensures var f := DecodeNullFrame(b, e);
      HeadWords(f) == WordsAt(b, 0, 5, e) && TailWords(f) == WordsAt(b, 21, 8, e)
  {
  }

  /**
   * NullFrame.Read: the fields in their stored order. Every field is a fixed size, so
   * the read fails with EndOfStream exactly when fewer than 54 bytes remain.
   */
  function ReadNullFrame(s: Bytes, pos: nat, e: Endian): (r: Result<(NullFrame, nat)>)
    ensures r.Ok? <==> pos + NULL_FRAME_SIZE <= |s|
    ensures r.Ok? ==> r.value == (DecodeNullFrame(s[pos..pos + NULL_FRAME_SIZE], e), pos + NULL_FRAME_SIZE)
    ensures r.Err? ==> r.error == EndOfStream
  {
    var b :- ReadBytes(s, pos, NULL_FRAME_SIZE);
    Ok((DecodeNullFrame(b.0, e), b.1))
  }

  /** NullFrame.Write: the fields in the order Read takes them, each flag as 1 or 0. */
  function NullFrameBytes(f: NullFrame, e: Endian): (r: Bytes)
    ensures |r| == NULL_FRAME_SIZE
  {
    Words(HeadWords(f), e) + EncodeBool(f.visible) + Words(TailWords(f), e) + EncodeBool(f.interpolated)
  }

  function NullFrameReader(e: Endian): Reader<NullFrame>
  {
    (s: Bytes, p: nat) => ReadNullFrame(s, p, e)
  }

  /** NullFrame.Write cannot fail. */
  function NullFrameWriter(e: Endian): Writer<NullFrame>
  {
    (f: NullFrame) => Ok(NullFrameBytes(f, e))
  }

  /** A b8 flag's byte as WriteValueB8 writes it back after ReadValueB8: 1 for non-zero, else 0. */
  function FlagByte(b: bv8): bv8
  {
    if b != 0 then 1 else 0
  }

  /** A frame's 54 bytes with both flag bytes made 0 or 1 and every other byte kept. */
  function FlagsNormalized(b: Bytes): (r: Bytes)
    requires |b| == NULL_FRAME_SIZE
    ensures |r| == NULL_FRAME_SIZE
  {
    b[..VISIBLE_OFFSET] + [FlagByte(b[VISIBLE_OFFSET])]
    + b[VISIBLE_OFFSET + 1..INTERPOLATED_OFFSET] + [FlagByte(b[INTERPOLATED_OFFSET])]
  }

  // ---------------------------------------------------------------------------
  // Fields one after another

  /** Byte j of field k of a run is byte j of that field's encoding. */
  lemma WordsIndex(ws: seq<u32>, k: nat, j: nat, e: Endian)
    requires k < |ws| && j < 4
    ensures Words(ws, e)[4 * k + j] == EncodeU32N(ws[k], e)[j]
  {
    DivModUnique(4 * k + j, 4, k, j);
  }

  /** The four bytes of field k of a run are that field's encoding. */
  lemma WordBytes(ws: seq<u32>, k: nat, e: Endian)
    requires k < |ws|
    ensures Words(ws, e)[4 * k..4 * k + 4] == EncodeU32N(ws[k], e)
  {
    var w, x := Words(ws, e)[4 * k..4 * k + 4], EncodeU32N(ws[k], e);
    forall j | 0 <= j < 4
      ensures w[j] == x[j]
    {
      WordsIndex(ws, k, j, e);
    }
    assert |w| == |x| == 4;
  }

  /** Written fields read back in order. */
  lemma WordsRead(ws: seq<u32>, e: Endian)
    ensures WordsAt(Words(ws, e), 0, |ws|, e) == ws
  {
    forall k | 0 <= k < |ws|
      ensures Word(Words(ws, e), 0 + 4 * k, e) == ws[k]
    {
      WordBytes(ws, k, e);
      DecodeEncodeU32N(ws[k], e);
    }
  }

  /** Byte j of fields read and written again is the byte it was read from. */
  lemma WordsWrittenIndex(b: Bytes, i: nat, n: nat, j: nat, e: Endian)
    requires i + 4 * n <= |b| && j < 4 * n
    ensures Words(WordsAt(b, i, n, e), e)[j] == b[i + j]
  {
    DivMod(j, 4);
    var k, r := j / 4, j % 4;
    var ws := WordsAt(b, i, n, e);
    WordsIndex(ws, k, r, e);
    var q := b[i + 4 * k..i + 4 * k + 4];
    EncodeDecodeU32N(q, e);
    assert Words(ws, e)[j] == q[r];
  }

  /** Fields read and written again are the bytes they were read from. */
  lemma WordsWritten(b: Bytes, i: nat, n: nat, e: Endian)
    requires i + 4 * n <= |b|
    ensures Words(WordsAt(b, i, n, e), e) == b[i..i + 4 * n]
  {
    var w, x := Words(WordsAt(b, i, n, e), e), b[i..i + 4 * n];
    forall j | 0 <= j < 4 * n
      ensures w[j] == x[j]
    {
      WordsWrittenIndex(b, i, n, j, e);
    }
    assert |w| == |x|;
  }

  /** Fields stored inside the middle part of u + m + v are read from m. */
  lemma WordsAtMiddle(u: Bytes, m: Bytes, v: Bytes, n: nat, e: Endian)
    requires 4 * n <= |m|
    ensures WordsAt(u + m + v, |u|, n, e) == WordsAt(m, 0, n, e)
  {
    forall k | 0 <= k < n
      ensures Word(u + m + v, |u| + 4 * k, e) == Word(m, 0 + 4 * k, e)
    {
      assert (u + m + v)[|u| + 4 * k..|u| + 4 * k + 4] == m[4 * k..4 * k + 4];
    }
  }

  /** Fields stored at the front of m + v are read from m. */
  lemma WordsAtFront(m: Bytes, v: Bytes, n: nat, e: Endian)
    requires 4 * n <= |m|
    ensures WordsAt(m + v, 0, n, e) == WordsAt(m, 0, n, e)
  {
    forall k | 0 <= k < n
      ensures Word(m + v, 0 + 4 * k, e) == Word(m, 0 + 4 * k, e)
    {
      assert (m + v)[4 * k..4 * k + 4] == m[4 * k..4 * k + 4];
    }
  }

  /** The fields before Visible are read back from where they were written. */
  lemma HeadRead(f: NullFrame, e: Endian)
    ensures WordsAt(NullFrameBytes(f, e), 0, 5, e) == HeadWords(f)
  {
    var h, v, t, i := Words(HeadWords(f), e), EncodeBool(f.visible), Words(TailWords(f), e), EncodeBool(f.interpolated);
    WordsAtFront(h + v + t, i, 5, e);
    WordsAtFront(h + v, t, 5, e);
    WordsAtFront(h, v, 5, e);
    WordsRead(HeadWords(f), e);
  }

  /** The fields between the flags are read back from where they were written. */
  lemma TailRead(f: NullFrame, e: Endian)
    ensures WordsAt(NullFrameBytes(f, e), 21, 8, e) == TailWords(f)
  {
    var h, v, t, i := Words(HeadWords(f), e), EncodeBool(f.visible), Words(TailWords(f), e), EncodeBool(f.interpolated);
    WordsAtMiddle(h + v, t, i, 8, e);
    WordsRead(TailWords(f), e);
  }

  /** Decoding what Write emits gives the frame back. */
  lemma DecodeWritten(f: NullFrame, e: Endian)
    ensures DecodeNullFrame(NullFrameBytes(f, e), e) == f
  {
    HeadRead(f, e);
    TailRead(f, e);
    var b := NullFrameBytes(f, e);
    var g := DecodeNullFrame(b, e);
    DecodedFields(b, e);
    assert b[VISIBLE_OFFSET] == EncodeBool(f.visible)[0];
    assert b[INTERPOLATED_OFFSET] == EncodeBool(f.interpolated)[0];
    assert HeadWords(g) == HeadWords(f) && TailWords(g) == TailWords(f);
  }

  // ---------------------------------------------------------------------------
  // Write, then Read

  /** A frame written at p is read back as itself, flags included, ending 54 bytes on. */
  lemma NullFrameReadsBackAt(s: Bytes, p: nat, f: NullFrame, e: Endian)
    requires At(s, p, NullFrameBytes(f, e))
    ensures ReadNullFrame(s, p, e) == Ok((f, p + NULL_FRAME_SIZE))
  {
    ReadBytesAt(s, p, NullFrameBytes(f, e));
    DecodeWritten(f, e);
  }

  /** A frame written anywhere reads back as itself. */
  lemma NullFrameRoundTrips(f: NullFrame, e: Endian)
    ensures ReadsBack(NullFrameReader(e), NullFrameWriter(e), f)
  {
    assert NullFrameWriter(e)(f) == Ok(NullFrameBytes(f, e));
    forall s: Bytes, p: nat | At(s, p, NullFrameBytes(f, e))
      ensures ReadNullFrame(s, p, e) == Ok((f, p + NULL_FRAME_SIZE))
    {
      NullFrameReadsBackAt(s, p, f, e);
    }
  }

  // ---------------------------------------------------------------------------
  // Read, then Write

  /**
   * A frame read from 54 bytes and written again gives back those bytes, except that
   * each flag byte is now 1 if it was non-zero and 0 otherwise.
   */
  lemma WrittenDecoded(b: Bytes, e: Endian)
    requires |b| == NULL_FRAME_SIZE
    ensures NullFrameBytes(DecodeNullFrame(b, e), e) == FlagsNormalized(b)
  {
    var f := DecodeNullFrame(b, e);
    DecodedFields(b, e);
    var head, tail := Words(HeadWords(f), e), Words(TailWords(f), e);
    WordsWritten(b, 0, 5, e);
    WordsWritten(b, 21, 8, e);
    assert head == b[0..20] && tail == b[21..53];
    var v, i := EncodeBool(f.visible), EncodeBool(f.interpolated);
    assert v == [FlagByte(b[VISIBLE_OFFSET])] && i == [FlagByte(b[INTERPOLATED_OFFSET])];
    assert NullFrameBytes(f, e) == head + v + tail + i;
  }

  /** NullFrame.Read then Write at any position: the bytes come back with their flags made 0 or 1. */
  lemma NullFrameWritesBack(s: Bytes, p: nat, e: Endian)
    requires ReadNullFrame(s, p, e).Ok?
    ensures NullFrameBytes(ReadNullFrame(s, p, e).value.0, e) == FlagsNormalized(s[p..p + NULL_FRAME_SIZE])
  {
    WrittenDecoded(s[p..p + NULL_FRAME_SIZE], e);
  }

  /** The two behaviours apart: a Visible byte of 2 is read as true and written back as 1. */
  lemma FlagWrittenAsOne(e: Endian)
    ensures var b := Zeros(VISIBLE_OFFSET) + [2] + Zeros(33);
      DecodeNullFrame(b, e).visible && NullFrameBytes(DecodeNullFrame(b, e), e)[VISIBLE_OFFSET] == 1
  {
    var b := Zeros(VISIBLE_OFFSET) + [2] + Zeros(33);
    WrittenDecoded(b, e);
    assert b[VISIBLE_OFFSET] == 2;
  }

  /** Any run of frames reads back, with no check on them. */
  lemma {:induction false} NullFramesRoundTrip(i: nat, frames: seq<NullFrame>, e: Endian)
    ensures AllReadBack(NullFrameReader(e), NullFrameWriter(e), NoCheck(), i, frames)
    decreases |frames|
  {
    if frames != [] {
      NullFrameRoundTrips(frames[0], e);
      NullFramesRoundTrip(i + 1, frames[1..], e);
    }
  }

  /** Writing frames never fails: each is 54 bytes. */
  lemma NullFramesWrite(frames: seq<NullFrame>, e: Endian)
    ensures WriteMany(frames, NullFrameWriter(e)).Ok?
  {
    WriteManyOk(frames, NullFrameWriter(e));
  }

  /** A frame count and the frames, as the animation writers lay them out, read back. */
  lemma CountedFramesReadBack(s: Bytes, q: nat, frames: seq<NullFrame>, e: Endian)
    requires |frames| < TWO_32 && WriteMany(frames, NullFrameWriter(e)).Ok?
    requires At(s, q, EncodeCount(|frames|, e) + WriteMany(frames, NullFrameWriter(e)).value)
    ensures ReadU32N(s, q, e) == Ok((|frames|, q + 4))
    ensures ReadMany(s, q + 4, 0, |frames|, NullFrameReader(e), NoCheck())
         == Ok((frames, q + 4 + |WriteMany(frames, NullFrameWriter(e)).value|))
  {
    var read, write := NullFrameReader(e), NullFrameWriter(e);
    NullFramesRoundTrip(0, frames, e);
    CountedWritten(s, q, frames, read, write, NoCheck(), e);
  }
}
