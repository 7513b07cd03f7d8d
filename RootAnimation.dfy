/**
 * Animation.RootAnimation: the frames of an animation's root, fewer than 5000 of them
 * on reading. A root frame has the layout of a null frame.
 */
module RootAnimationCodec {
  import opened Wrappers
  import opened ByteIO
  import opened Arith
  import opened Records
  import opened NullFrameCodec

  datatype RootAnimation = RootAnimation(frames: Option<seq<NullFrame>>)

  const MAX_ROOT_FRAMES: nat := 5000

  /**
   * RootAnimation.Read: a u32 frame count, then the frames. A count of 5000 or more is
   * rejected before any frame is read.
   */
  function RootAnimationAt(s: Bytes, pos: nat, e: Endian): (r: Result<(RootAnimation, nat)>)
    ensures r.Ok? ==> r.value.0.frames.Some? && |r.value.0.frames.value| < MAX_ROOT_FRAMES
  {
    var count :- ReadU32N(s, pos, e);
    if count.0 >= MAX_ROOT_FRAMES then Err(Format("too many root frames"))
    else
      var frames :- ReadMany(s, count.1, 0, count.0, NullFrameReader(e), NoCheck());
      Ok((RootAnimation(Some(frames.0)), frames.1))
  }

  /** A frame count of 5000 or more is rejected, whatever follows it. */
  lemma TooManyRootFrames(s: Bytes, pos: nat, e: Endian)
    requires pos + 4 <= |s| && DecodeU32N(s[pos..pos + 4], e) >= MAX_ROOT_FRAMES
    ensures RootAnimationAt(s, pos, e) == Err(Format("too many root frames"))
  {
  }

  /** The Read loop, filling the frame array one frame at a time. */
  method ReadRootAnimation(s: Bytes, pos: nat, e: Endian) returns (r: Result<(RootAnimation, nat)>)
    ensures r == RootAnimationAt(s, pos, e)
  {
    var count := ReadU32N(s, pos, e);
    if count.Err? {
      return Err(count.error);
    }
    if count.value.0 >= MAX_ROOT_FRAMES {
      return Err(Format("too many root frames"));
    }
    var frames := ReadArray(s, count.value.1, count.value.0, NullFrameReader(e), NoCheck());
    if frames.Err? {
      return Err(frames.error);
    }
    r := Ok((RootAnimation(Some(frames.value.0)), frames.value.1));
  }

  /** RootAnimation.Write: the frame count as S32, null frames as 0, then the frames; it cannot fail. */
  function RootAnimationBytes(a: RootAnimation, e: Endian): (r: Result<Bytes>)
    ensures r.Ok?
  {
    NullFramesWrite(ItemsOf(a.frames), e);
    WriteCounted(a.frames, NullFrameWriter(e), e)
  }

  /** The Write loop over the frames. */
  method WriteRootAnimation(a: RootAnimation, e: Endian) returns (r: Result<Bytes>)
    ensures r == RootAnimationBytes(a, e)
  {
    var frames := WriteArray(ItemsOf(a.frames), NullFrameWriter(e));
    NullFramesWrite(ItemsOf(a.frames), e);
    r := Ok(EncodeCount(|ItemsOf(a.frames)|, e) + frames.value);
  }

  /** What Read can return: frames present and fewer than 5000. */
  predicate Accepted(a: RootAnimation)
  {
    a.frames.Some? && |a.frames.value| < MAX_ROOT_FRAMES
  }

  function RootAnimationReader(e: Endian): Reader<RootAnimation>
  {
    (s: Bytes, p: nat) => RootAnimationAt(s, p, e)
  }

  function RootAnimationWriter(e: Endian): Writer<RootAnimation>
  {
    (a: RootAnimation) => RootAnimationBytes(a, e)
  }

  /** Where Write's output sits, the count and the frames sit. */
  lemma WrittenPieces(s: Bytes, p: nat, a: RootAnimation, e: Endian)
    requires Accepted(a) && At(s, p, RootAnimationBytes(a, e).value)
    ensures WriteMany(a.frames.value, NullFrameWriter(e)).Ok?
    ensures At(s, p, EncodeCount(|a.frames.value|, e) + WriteMany(a.frames.value, NullFrameWriter(e)).value)
    ensures |RootAnimationBytes(a, e).value| == 4 + |WriteMany(a.frames.value, NullFrameWriter(e)).value|
  {
    NullFramesWrite(a.frames.value, e);
  }

  /** A count of fewer than 5000 and that many frames read as the root animation. */
  lemma RootAnimationAtFields(s: Bytes, p: nat, a: RootAnimation, e: Endian, end: nat)
    requires Accepted(a) && ReadU32N(s, p, e) == Ok((|a.frames.value|, p + 4))
    requires ReadMany(s, p + 4, 0, |a.frames.value|, NullFrameReader(e), NoCheck()) == Ok((a.frames.value, end))
    ensures RootAnimationAt(s, p, e) == Ok((a, end))
  {
  }

  /** A count and frames laid out as Write lays them out are read back as the root animation. */
  lemma PiecesReadBack(s: Bytes, p: nat, a: RootAnimation, e: Endian)
    requires Accepted(a) && WriteMany(a.frames.value, NullFrameWriter(e)).Ok?
    requires At(s, p, EncodeCount(|a.frames.value|, e) + WriteMany(a.frames.value, NullFrameWriter(e)).value)
    ensures RootAnimationAt(s, p, e) == Ok((a, p + 4 + |WriteMany(a.frames.value, NullFrameWriter(e)).value|))
  {
    CountedFramesReadBack(s, p, a.frames.value, e);
    RootAnimationAtFields(s, p, a, e, p + 4 + |WriteMany(a.frames.value, NullFrameWriter(e)).value|);
  }

  /** Root animations written at p are read back, ending where the bytes end. */
  lemma RootAnimationReadsBackAt(s: Bytes, p: nat, a: RootAnimation, e: Endian)
    requires Accepted(a) && At(s, p, RootAnimationBytes(a, e).value)
    ensures RootAnimationAt(s, p, e) == Ok((a, p + |RootAnimationBytes(a, e).value|))
  {
    WrittenPieces(s, p, a, e);
    PiecesReadBack(s, p, a, e);
  }

  /** Accepted root animations read back wherever they are written. */
  lemma RootAnimationRoundTrips(a: RootAnimation, e: Endian)
    requires Accepted(a)
    ensures ReadsBack(RootAnimationReader(e), RootAnimationWriter(e), a)
  {
    assert RootAnimationWriter(e)(a) == RootAnimationBytes(a, e);
    forall s: Bytes, p: nat | At(s, p, RootAnimationBytes(a, e).value)
      ensures RootAnimationAt(s, p, e) == Ok((a, p + |RootAnimationBytes(a, e).value|))
    {
      RootAnimationReadsBackAt(s, p, a, e);
    }
  }

  /** Write does not enforce the bound: 5000 frames are written, and Read rejects them. */
  lemma WriteUnbounded(s: Bytes, p: nat, a: RootAnimation, e: Endian)
    requires a.frames.Some? && MAX_ROOT_FRAMES <= |a.frames.value| < TWO_32
    requires At(s, p, RootAnimationBytes(a, e).value)
    ensures RootAnimationAt(s, p, e) == Err(Format("too many root frames"))
  {
    NullFramesWrite(a.frames.value, e);
    CountedPrefix(a.frames, NullFrameWriter(e), e);
    DecodeEncodeU32N(|a.frames.value|, e);
    AtSlice(s, p, RootAnimationBytes(a, e).value);
    assert s[p..p + 4] == RootAnimationBytes(a, e).value[..4];
  }
}
