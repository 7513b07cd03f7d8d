/**
 * Animation.NullAnimation: a null layer's id, its visibility flag and its frames,
 * fewer than 5000 of them on reading.
 */
module NullAnimationCodec {
  import opened Wrappers
  import opened ByteIO
  import opened Arith
  import opened Records
  import opened NullFrameCodec

  datatype NullAnimation = NullAnimation(nullId: bv32, visible: bool, frames: Option<seq<NullFrame>>)

  const MAX_NULL_FRAMES: nat := 5000

  /** The header fields before the frames: id and flag. */
  function NullHeader(a: NullAnimation, e: Endian): (r: Bytes)
    ensures |r| == 5
  {
    EncodeU32(a.nullId, e) + EncodeBool(a.visible)
  }

  /**
   * NullAnimation.Read: NullId, Visible, a u32 frame count, then the frames. A count
   * of 5000 or more is rejected before any frame is read.
   */
  function NullAnimationAt(s: Bytes, pos: nat, e: Endian): (r: Result<(NullAnimation, nat)>)
    ensures r.Ok? ==> r.value.0.frames.Some? && |r.value.0.frames.value| < MAX_NULL_FRAMES
  {
    var nullId :- ReadU32(s, pos, e);
    var visible :- ReadBool(s, nullId.1);
    var count :- ReadU32N(s, visible.1, e);
    if count.0 >= MAX_NULL_FRAMES then Err(Format("too many null frames"))
    else
      var frames :- ReadMany(s, count.1, 0, count.0, NullFrameReader(e), NoCheck());
      Ok((NullAnimation(nullId.0, visible.0, Some(frames.0)), frames.1))
  }

  /** A frame count of 5000 or more is rejected, whatever follows it. */
  lemma TooManyNullFrames(s: Bytes, pos: nat, e: Endian)
    requires pos + 9 <= |s| && DecodeU32N(s[pos + 5..pos + 9], e) >= MAX_NULL_FRAMES
    ensures NullAnimationAt(s, pos, e) == Err(Format("too many null frames"))
  {
  }

  /** The Read loop, filling the frame array one frame at a time. */
  method ReadNullAnimation(s: Bytes, pos: nat, e: Endian) returns (r: Result<(NullAnimation, nat)>)
    ensures r == NullAnimationAt(s, pos, e)
  {
    var nullId := ReadU32(s, pos, e);
    if nullId.Err? {
      return Err(nullId.error);
    }
    var visible := ReadBool(s, nullId.value.1);
    if visible.Err? {
      return Err(visible.error);
    }
    var count := ReadU32N(s, visible.value.1, e);
    if count.Err? {
      return Err(count.error);
    }
    if count.value.0 >= MAX_NULL_FRAMES {
      return Err(Format("too many null frames"));
    }
    var frames := ReadArray(s, count.value.1, count.value.0, NullFrameReader(e), NoCheck());
    if frames.Err? {
      return Err(frames.error);
    }
    r := Ok((NullAnimation(nullId.value.0, visible.value.0, Some(frames.value.0)), frames.value.1));
  }

  /** NullAnimation.Write: the same fields in the same order, the count as S32, null frames as 0. */
  function NullAnimationBytes(a: NullAnimation, e: Endian): (r: Result<Bytes>)
    ensures r.Ok?
  {
    NullFramesWrite(ItemsOf(a.frames), e);
    Ok(NullHeader(a, e) + WriteCounted(a.frames, NullFrameWriter(e), e).value)
  }

  /** The Write loop over the frames. */
  method WriteNullAnimation(a: NullAnimation, e: Endian) returns (r: Result<Bytes>)
    ensures r == NullAnimationBytes(a, e)
  {
    var frames := WriteArray(ItemsOf(a.frames), NullFrameWriter(e));
    NullFramesWrite(ItemsOf(a.frames), e);
    assert WriteCounted(a.frames, NullFrameWriter(e), e) == Ok(EncodeCount(|ItemsOf(a.frames)|, e) + frames.value);
    r := Ok(NullHeader(a, e) + (EncodeCount(|ItemsOf(a.frames)|, e) + frames.value));
  }

  /** What Read can return: frames present and fewer than 5000. */
  predicate Accepted(a: NullAnimation)
  {
    a.frames.Some? && |a.frames.value| < MAX_NULL_FRAMES
  }

  /** The reads of Read meet the fields of `a` one after the other and end at `end`. */
  predicate FieldsAt(s: Bytes, p: nat, a: NullAnimation, e: Endian, end: nat)
    requires Accepted(a)
  {
    && ReadU32(s, p, e) == Ok((a.nullId, p + 4)) && ReadBool(s, p + 4) == Ok((a.visible, p + 5))
    && ReadU32N(s, p + 5, e) == Ok((|a.frames.value|, p + 5 + 4))
    && ReadMany(s, p + 5 + 4, 0, |a.frames.value|, NullFrameReader(e), NoCheck()) == Ok((a.frames.value, end))
  }

  /** Read then returns `a`, ending at `end`. */
  lemma NullAnimationAtFields(s: Bytes, p: nat, a: NullAnimation, e: Endian, end: nat)
    requires Accepted(a) && FieldsAt(s, p, a, e, end)
    ensures NullAnimationAt(s, p, e) == Ok((a, end))
  {
  }

  /** The id and the flag Write lays down are read back. */
  lemma HeaderReadBack(s: Bytes, p: nat, a: NullAnimation, e: Endian)
    requires At(s, p, NullHeader(a, e))
    ensures ReadU32(s, p, e) == Ok((a.nullId, p + 4)) && ReadBool(s, p + 4) == Ok((a.visible, p + 5))
  {
    AtSplit(s, p, EncodeU32(a.nullId, e), EncodeBool(a.visible));
    ReadU32At(s, p, a.nullId, e);
    ReadBoolAt(s, p + 4, a.visible);
  }

  /** Each field Write lays down is met by the matching read. */
  lemma FieldsReadBack(s: Bytes, p: nat, a: NullAnimation, e: Endian)
    requires Accepted(a) && WriteMany(a.frames.value, NullFrameWriter(e)).Ok?
    requires At(s, p, NullHeader(a, e))
    requires At(s, p + 5, EncodeCount(|a.frames.value|, e) + WriteMany(a.frames.value, NullFrameWriter(e)).value)
    ensures FieldsAt(s, p, a, e, p + 5 + 4 + |WriteMany(a.frames.value, NullFrameWriter(e)).value|)
  {
    HeaderReadBack(s, p, a, e);
    CountedFramesReadBack(s, p + 5, a.frames.value, e);
  }

  /** Write does not enforce the bound: 5000 frames are written, and Read rejects them. */
  lemma WriteUnbounded(s: Bytes, p: nat, a: NullAnimation, e: Endian)
    requires a.frames.Some? && MAX_NULL_FRAMES <= |a.frames.value| < TWO_32
    requires At(s, p, NullAnimationBytes(a, e).value)
    ensures NullAnimationAt(s, p, e) == Err(Format("too many null frames"))
  {
    NullFramesWrite(ItemsOf(a.frames), e);
    var frames := WriteCounted(a.frames, NullFrameWriter(e), e).value;
    CountedPrefix(a.frames, NullFrameWriter(e), e);
    DecodeEncodeU32N(|a.frames.value|, e);
    AtSplit(s, p, NullHeader(a, e), frames);
    AtSlice(s, p + 5, frames);
    assert frames[..4] == EncodeU32N(|a.frames.value|, e);
    assert s[p + 5..p + 9] == frames[..4];
  }

  function NullAnimationReader(e: Endian): Reader<NullAnimation>
  {
    (s: Bytes, p: nat) => NullAnimationAt(s, p, e)
  }

  function NullAnimationWriter(e: Endian): Writer<NullAnimation>
  {
    (a: NullAnimation) => NullAnimationBytes(a, e)
  }

  /** Where Write's output sits, its header and its counted frames sit one after the other. */
  lemma WrittenPieces(s: Bytes, p: nat, a: NullAnimation, e: Endian)
    requires Accepted(a) && At(s, p, NullAnimationBytes(a, e).value)
    ensures WriteMany(a.frames.value, NullFrameWriter(e)).Ok?
    ensures At(s, p, NullHeader(a, e))
    ensures At(s, p + 5, EncodeCount(|a.frames.value|, e) + WriteMany(a.frames.value, NullFrameWriter(e)).value)
    ensures |NullAnimationBytes(a, e).value| == 5 + 4 + |WriteMany(a.frames.value, NullFrameWriter(e)).value|
  {
    var frames := a.frames.value;
    NullFramesWrite(frames, e);
    var body := WriteMany(frames, NullFrameWriter(e)).value;
    var counted := EncodeCount(|frames|, e) + body;
    assert NullAnimationBytes(a, e).value == NullHeader(a, e) + counted;
    AtSplit(s, p, NullHeader(a, e), counted);
  }

  /** Fields laid out as Write lays them out are read back as the null animation. */
  lemma PiecesReadBack(s: Bytes, p: nat, a: NullAnimation, e: Endian)
    requires Accepted(a) && WriteMany(a.frames.value, NullFrameWriter(e)).Ok?
    requires At(s, p, NullHeader(a, e))
    requires At(s, p + 5, EncodeCount(|a.frames.value|, e) + WriteMany(a.frames.value, NullFrameWriter(e)).value)
    ensures NullAnimationAt(s, p, e) == Ok((a, p + 5 + 4 + |WriteMany(a.frames.value, NullFrameWriter(e)).value|))
  {
    FieldsReadBack(s, p, a, e);
    NullAnimationAtFields(s, p, a, e, p + 5 + 4 + |WriteMany(a.frames.value, NullFrameWriter(e)).value|);
  }

  /** Null animations written at p are read back, ending where the bytes end. */
  lemma NullAnimationReadsBackAt(s: Bytes, p: nat, a: NullAnimation, e: Endian, end: nat)
    requires Accepted(a) && At(s, p, NullAnimationBytes(a, e).value)
    requires end == p + |NullAnimationBytes(a, e).value|
    ensures NullAnimationAt(s, p, e) == Ok((a, end))
  {
    WrittenPieces(s, p, a, e);
    PiecesReadBack(s, p, a, e);
  }

  /** Accepted null animations read back wherever they are written. */
  lemma NullAnimationRoundTrips(a: NullAnimation, e: Endian)
    requires Accepted(a)
    ensures ReadsBack(NullAnimationReader(e), NullAnimationWriter(e), a)
  {
    var read, write := NullAnimationReader(e), NullAnimationWriter(e);
    assert write(a) == NullAnimationBytes(a, e);
    forall s: Bytes, p: nat, end: nat | At(s, p, write(a).value) && end == p + |write(a).value|
      ensures read(s, p) == Ok((a, end))
    {
      NullAnimationReadsBackAt(s, p, a, e, end);
    }
    ReadsBackFromPlacements(read, write, a);
  }

  /** An array of accepted null animations reads back, with no check on them. */
  lemma NullAnimationsRoundTrip(nulls: seq<NullAnimation>, e: Endian)
    requires forall k :: 0 <= k < |nulls| ==> Accepted(nulls[k])
    ensures AllReadBack(NullAnimationReader(e), NullAnimationWriter(e), NoCheck(), 0, nulls)
  {
    forall k | 0 <= k < |nulls|
      ensures ReadsBack(NullAnimationReader(e), NullAnimationWriter(e), nulls[k])
    {
      NullAnimationRoundTrips(nulls[k], e);
    }
    AllReadBackOf(NullAnimationReader(e), NullAnimationWriter(e), NoCheck(), 0, nulls);
  }

  /** Writing null animations never fails. */
  lemma NullAnimationsWrite(nulls: seq<NullAnimation>, e: Endian)
    ensures WriteMany(nulls, NullAnimationWriter(e)).Ok?
  {
    WriteManyOk(nulls, NullAnimationWriter(e));
  }
}
