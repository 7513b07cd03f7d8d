/**
 * Animation.Animation: a named animation of an actor. Its name, frame count and loop
 * flag, its root animation, then three arrays, each with a u32 count that must stay
 * under 32 on reading: layer animations, null animations and triggers.
 *
 * A layer animation's own format is not part of this model, so the animation is
 * generic in the layer type `L` and every operation takes the layer reader or writer
 * as a parameter; the round trip holds for layers that themselves read back.
 */
module AnimationCodec {
  import opened Wrappers
  import opened ByteIO
  import opened Arith
  import opened Records
  import opened StreamHelpers
  import RootAnimationCodec
  import NullAnimationCodec
  import opened TriggerCodec

  type RootAnimation = RootAnimationCodec.RootAnimation
  type NullAnimation = NullAnimationCodec.NullAnimation

  /** A .NET string or array that may be null is an Option. */
  datatype Animation<L> = Animation(
    name: Option<Text>,
    frameNum: u32,
    loop: bool,
    root: RootAnimation,
    layers: Option<seq<L>>,
    nulls: Option<seq<NullAnimation>>,
    triggers: Option<seq<Trigger>>)

  const MAX_LAYER_ANIMATIONS: nat := 32
  const MAX_NULL_ANIMATIONS: nat := 32
  const MAX_TRIGGERS: nat := 32

  const TOO_MANY_LAYERS: string := "too many animation layers"
  const TOO_MANY_NULLS: string := "too many null layers"
  const TOO_MANY_TRIGGERS: string := "too many triggers"

  /** The fields in front of the arrays, as Read returns them. */
  datatype Head = Head(name: Text, frameNum: u32, loop: bool, root: RootAnimation)

  /** Read's first four fields: name, FrameNum, Loop and the root animation. */
  function HeadAt(s: Bytes, pos: nat, e: Endian): (r: Result<(Head, nat)>)
    ensures r.Ok? ==> Lossless(Some(r.value.0.name)) && RootAnimationCodec.Accepted(r.value.0.root)
  {
    var name :- ReadString(s, pos, e);
    var frameNum :- ReadU32N(s, name.1, e);
    var loop :- ReadBool(s, frameNum.1);
    var root :- RootAnimationCodec.RootAnimationReader(e)(s, loop.1);
    Ok((Head(name.0, frameNum.0, loop.0, root.0), root.1))
  }

  /** Read's three arrays, each count of 32 or more rejected before its array is read. */
  function ArraysAt<L>(s: Bytes, pos: nat, e: Endian, layer: Reader<L>): (r: Result<((seq<L>, seq<NullAnimation>, seq<Trigger>), nat)>)
    ensures r.Ok? ==> var (layers, nulls, triggers) := r.value.0;
      |layers| < MAX_LAYER_ANIMATIONS && |nulls| < MAX_NULL_ANIMATIONS && |triggers| < MAX_TRIGGERS
  {
    var layers :- ReadBounded(s, pos, e, MAX_LAYER_ANIMATIONS, TOO_MANY_LAYERS, layer, NoCheck());
    var nulls :- ReadBounded(s, layers.1, e, MAX_NULL_ANIMATIONS, TOO_MANY_NULLS,
                             NullAnimationCodec.NullAnimationReader(e), NoCheck());
    var triggers :- ReadBounded(s, nulls.1, e, MAX_TRIGGERS, TOO_MANY_TRIGGERS, TriggerReader(e), NoCheck());
    Ok(((layers.0, nulls.0, triggers.0), triggers.1))
  }

  /** A layer count of 32 or more is rejected before any layer is read. */
  lemma TooManyLayers<L>(s: Bytes, pos: nat, e: Endian, layer: Reader<L>)
    requires pos + 4 <= |s| && DecodeU32N(s[pos..pos + 4], e) >= MAX_LAYER_ANIMATIONS
    ensures ArraysAt(s, pos, e, layer) == Err(Format(TOO_MANY_LAYERS))
  {
    BoundExceeded(s, pos, e, MAX_LAYER_ANIMATIONS, TOO_MANY_LAYERS, layer, NoCheck());
  }

  /** After the layers, a null-animation count of 32 or more is rejected before any is read. */
  lemma TooManyNulls<L>(s: Bytes, pos: nat, e: Endian, layer: Reader<L>, layers: seq<L>, q: nat)
    requires ReadBounded(s, pos, e, MAX_LAYER_ANIMATIONS, TOO_MANY_LAYERS, layer, NoCheck()) == Ok((layers, q))
    requires q + 4 <= |s| && DecodeU32N(s[q..q + 4], e) >= MAX_NULL_ANIMATIONS
    ensures ArraysAt(s, pos, e, layer) == Err(Format(TOO_MANY_NULLS))
  {
    BoundExceeded(s, q, e, MAX_NULL_ANIMATIONS, TOO_MANY_NULLS, NullAnimationCodec.NullAnimationReader(e), NoCheck());
  }

  /** After the layers and the null animations, a trigger count of 32 or more is rejected. */
  lemma TooManyTriggers<L>(s: Bytes, pos: nat, e: Endian, layer: Reader<L>, layers: seq<L>, q: nat,
                           nulls: seq<NullAnimation>, t: nat)
    requires ReadBounded(s, pos, e, MAX_LAYER_ANIMATIONS, TOO_MANY_LAYERS, layer, NoCheck()) == Ok((layers, q))
    requires ReadBounded(s, q, e, MAX_NULL_ANIMATIONS, TOO_MANY_NULLS,
                         NullAnimationCodec.NullAnimationReader(e), NoCheck()) == Ok((nulls, t))
    requires t + 4 <= |s| && DecodeU32N(s[t..t + 4], e) >= MAX_TRIGGERS
    ensures ArraysAt(s, pos, e, layer) == Err(Format(TOO_MANY_TRIGGERS))
  {
    BoundExceeded(s, t, e, MAX_TRIGGERS, TOO_MANY_TRIGGERS, TriggerReader(e), NoCheck());
  }

  /**
   * Animation.Read: the head fields, then the layer, null and trigger arrays.
   */
  function AnimationAt<L>(s: Bytes, pos: nat, e: Endian, layer: Reader<L>): (r: Result<(Animation<L>, nat)>)
    ensures r.Ok? ==> var a := r.value.0;
      && Lossless(a.name) && RootAnimationCodec.Accepted(a.root)
      && a.layers.Some? && |a.layers.value| < MAX_LAYER_ANIMATIONS
      && a.nulls.Some? && |a.nulls.value| < MAX_NULL_ANIMATIONS
      && a.triggers.Some? && |a.triggers.value| < MAX_TRIGGERS
  {
    var head :- HeadAt(s, pos, e);
    var arrays :- ArraysAt(s, head.1, e, layer);
    var (h, (layers, nulls, triggers)) := (head.0, arrays.0);
    Ok((Animation(Some(h.name), h.frameNum, h.loop, h.root, Some(layers), Some(nulls), Some(triggers)), arrays.1))
  }

  /** The Read method, with Animation.Read's three array-filling loops. */
  method ReadAnimation<L>(s: Bytes, pos: nat, e: Endian, layer: Reader<L>) returns (r: Result<(Animation<L>, nat)>)
    ensures r == AnimationAt(s, pos, e, layer)
  {
    var name := ReadString(s, pos, e);
    if name.Err? {
      return Err(name.error);
    }
    var frameNum := ReadU32N(s, name.value.1, e);
    if frameNum.Err? {
      return Err(frameNum.error);
    }
    var loop := ReadBool(s, frameNum.value.1);
    if loop.Err? {
      return Err(loop.error);
    }
    var root := RootAnimationCodec.ReadRootAnimation(s, loop.value.1, e);
    if root.Err? {
      return Err(root.error);
    }
    var layers := ReadBoundedArray(s, root.value.1, e, MAX_LAYER_ANIMATIONS, TOO_MANY_LAYERS, layer, NoCheck());
    if layers.Err? {
      return Err(layers.error);
    }
    var nulls := ReadBoundedArray(s, layers.value.1, e, MAX_NULL_ANIMATIONS, TOO_MANY_NULLS,
                                  NullAnimationCodec.NullAnimationReader(e), NoCheck());
    if nulls.Err? {
      return Err(nulls.error);
    }
    var triggers := ReadBoundedArray(s, nulls.value.1, e, MAX_TRIGGERS, TOO_MANY_TRIGGERS, TriggerReader(e), NoCheck());
    if triggers.Err? {
      return Err(triggers.error);
    }
    r := Ok((Animation(Some(name.value.0), frameNum.value.0, loop.value.0, root.value.0,
                       Some(layers.value.0), Some(nulls.value.0), Some(triggers.value.0)), triggers.value.1));
  }

  /** The fields in front of the arrays, the name already written. */
  function HeadBytes<L>(name: Bytes, a: Animation<L>, e: Endian): (r: Bytes)
    ensures |r| == |name| + 4 + 1 + |RootAnimationCodec.RootAnimationBytes(a.root, e).value|
  {
    name + EncodeU32N(a.frameNum, e) + EncodeBool(a.loop) + RootAnimationCodec.RootAnimationBytes(a.root, e).value
  }

  /**
   * Animation.Write: the fields in Read's order, each array as an S32 count (a null
   * array as 0) and its records. Only the name and the layers can make it throw; the
   * three bounds are not enforced.
   */
  function AnimationBytes<L>(a: Animation<L>, e: Endian, layer: Writer<L>): (r: Result<Bytes>)
    ensures a.name.None? ==> r == Err(ArgumentNull)
    ensures a.name.Some? && |a.name.value| > MAX_STRING_LENGTH ==> r == Err(ArgumentOutOfRange)
    ensures r.Ok? <==> WriteString(a.name, e).Ok? && WriteMany(ItemsOf(a.layers), layer).Ok?
  {
    NullAnimationCodec.NullAnimationsWrite(ItemsOf(a.nulls), e);
    TriggersWrite(ItemsOf(a.triggers), e);
    var name :- WriteString(a.name, e);
    var layers :- WriteCounted(a.layers, layer, e);
    Ok(HeadBytes(name, a, e) + (layers + WriteCounted(a.nulls, NullAnimationCodec.NullAnimationWriter(e), e).value
                                + WriteCounted(a.triggers, TriggerWriter(e), e).value))
  }

  /** The Write method, with Animation.Write's three `foreach` loops. */
  method WriteAnimation<L>(a: Animation<L>, e: Endian, layer: Writer<L>) returns (r: Result<Bytes>)
    ensures r == AnimationBytes(a, e, layer)
  {
    var name := WriteString(a.name, e);
    if name.Err? {
      return Err(name.error);
    }
    var root := RootAnimationCodec.WriteRootAnimation(a.root, e);
    var layers := WriteArray(ItemsOf(a.layers), layer);
    if layers.Err? {
      return Err(layers.error);
    }
    var nulls := WriteArray(ItemsOf(a.nulls), NullAnimationCodec.NullAnimationWriter(e));
    var triggers := WriteArray(ItemsOf(a.triggers), TriggerWriter(e));
    NullAnimationCodec.NullAnimationsWrite(ItemsOf(a.nulls), e);
    TriggersWrite(ItemsOf(a.triggers), e);
    r := Ok(name.value + EncodeU32N(a.frameNum, e) + EncodeBool(a.loop) + root.value
            + ((EncodeCount(|ItemsOf(a.layers)|, e) + layers.value)
               + (EncodeCount(|ItemsOf(a.nulls)|, e) + nulls.value)
               + (EncodeCount(|ItemsOf(a.triggers)|, e) + triggers.value)));
  }

  /** What Read can return, with null animations that read back themselves. */
  predicate Accepted<L>(a: Animation<L>)
  {
    && Lossless(a.name) && RootAnimationCodec.Accepted(a.root)
    && a.layers.Some? && |a.layers.value| < MAX_LAYER_ANIMATIONS
    && a.nulls.Some? && |a.nulls.value| < MAX_NULL_ANIMATIONS
    && (forall k :: 0 <= k < |a.nulls.value| ==> NullAnimationCodec.Accepted(a.nulls.value[k]))
    && a.triggers.Some? && |a.triggers.value| < MAX_TRIGGERS
  }

  function AnimationReader<L>(e: Endian, layer: Reader<L>): Reader<Animation<L>>
  {
    (s: Bytes, p: nat) => AnimationAt(s, p, e, layer)
  }

  function AnimationWriter<L>(e: Endian, layer: Writer<L>): Writer<Animation<L>>
  {
    (a: Animation<L>) => AnimationBytes(a, e, layer)
  }

  /** Read's head fields, met one after the other, make up the head. */
  lemma HeadAtFields(s: Bytes, p: nat, name: Text, frameNum: u32, loop: bool, root: RootAnimation, e: Endian, end: nat)
    requires ReadString(s, p, e) == Ok((name, p + 2 + |name|))
    requires ReadU32N(s, p + 2 + |name|, e) == Ok((frameNum, p + 2 + |name| + 4))
    requires ReadBool(s, p + 2 + |name| + 4) == Ok((loop, p + 2 + |name| + 5))
    requires RootAnimationCodec.RootAnimationReader(e)(s, p + 2 + |name| + 5) == Ok((root, end))
    ensures HeadAt(s, p, e) == Ok((Head(name, frameNum, loop, root), end))
  {
  }

  /** The name, the frame count and the loop flag, each read where it was written. */
  lemma HeadFieldReads(s: Bytes, p: nat, name: Text, frameNum: u32, loop: bool, e: Endian)
    requires Lossless(Some(name)) && At(s, p, EncodeString(name, e))
    requires At(s, p + 2 + |name|, EncodeU32N(frameNum, e)) && At(s, p + 2 + |name| + 4, EncodeBool(loop))
    ensures ReadString(s, p, e) == Ok((name, p + 2 + |name|))
    ensures ReadU32N(s, p + 2 + |name|, e) == Ok((frameNum, p + 2 + |name| + 4))
    ensures ReadBool(s, p + 2 + |name| + 4) == Ok((loop, p + 2 + |name| + 5))
  {
    ReadStringAt(s, p, name, e);
    ReadU32NAt(s, p + 2 + |name|, frameNum, e);
    ReadBoolAt(s, p + 2 + |name| + 4, loop);
  }

  /** The head fields, each where Write puts it, are read back one after the other. */
  lemma HeadReadBack(s: Bytes, p: nat, name: Text, frameNum: u32, loop: bool, root: RootAnimation, e: Endian, h: nat)
    requires Lossless(Some(name)) && RootAnimationCodec.Accepted(root)
    requires At(s, p, EncodeString(name, e))
    requires At(s, p + 2 + |name|, EncodeU32N(frameNum, e)) && At(s, p + 2 + |name| + 4, EncodeBool(loop))
    requires At(s, p + 2 + |name| + 5, RootAnimationCodec.RootAnimationWriter(e)(root).value)
    requires h == p + 2 + |name| + 5 + |RootAnimationCodec.RootAnimationWriter(e)(root).value|
    ensures HeadAt(s, p, e) == Ok((Head(name, frameNum, loop, root), h))
  {
    HeadFieldReads(s, p, name, frameNum, loop, e);
    RootReadBack(s, p + 2 + |name| + 5, root, e, h);
    HeadAtFields(s, p, name, frameNum, loop, root, e, h);
  }

  /** The root animation, where Write puts it, is read back. */
  lemma RootReadBack(s: Bytes, q: nat, root: RootAnimation, e: Endian, h: nat)
    requires RootAnimationCodec.Accepted(root) && At(s, q, RootAnimationCodec.RootAnimationWriter(e)(root).value)
    requires h == q + |RootAnimationCodec.RootAnimationWriter(e)(root).value|
    ensures RootAnimationCodec.RootAnimationReader(e)(s, q) == Ok((root, h))
  {
    RootAnimationCodec.RootAnimationRoundTrips(root, e);
    ReadBackAt(s, q, root, RootAnimationCodec.RootAnimationReader(e), RootAnimationCodec.RootAnimationWriter(e));
  }

  /** The layer array, as Write lays it out, is read back when its layers read back. */
  lemma LayersReadBack<L>(s: Bytes, h: nat, layers: seq<L>, e: Endian, layer: Reader<L>, write: Writer<L>, q: nat)
    requires |layers| < MAX_LAYER_ANIMATIONS && AllReadBack(layer, write, NoCheck(), 0, layers)
    requires WriteCounted(Some(layers), write, e).Ok? && At(s, h, WriteCounted(Some(layers), write, e).value)
    requires q == h + |WriteCounted(Some(layers), write, e).value|
    ensures ReadBounded(s, h, e, MAX_LAYER_ANIMATIONS, TOO_MANY_LAYERS, layer, NoCheck()) == Ok((layers, q))
  {
    CountedBytes(Some(layers), write, e);
    BoundedWritten(s, h, layers, e, MAX_LAYER_ANIMATIONS, TOO_MANY_LAYERS, layer, write, NoCheck(), q);
  }

  /** The null-animation array, as Write lays it out, is read back. */
  lemma NullsReadBack(s: Bytes, q: nat, nulls: seq<NullAnimation>, e: Endian, t: nat)
    requires |nulls| < MAX_NULL_ANIMATIONS && forall k :: 0 <= k < |nulls| ==> NullAnimationCodec.Accepted(nulls[k])
    requires WriteCounted(Some(nulls), NullAnimationCodec.NullAnimationWriter(e), e).Ok?
    requires At(s, q, WriteCounted(Some(nulls), NullAnimationCodec.NullAnimationWriter(e), e).value)
    requires t == q + |WriteCounted(Some(nulls), NullAnimationCodec.NullAnimationWriter(e), e).value|
    ensures ReadBounded(s, q, e, MAX_NULL_ANIMATIONS, TOO_MANY_NULLS,
                        NullAnimationCodec.NullAnimationReader(e), NoCheck()) == Ok((nulls, t))
  {
    CountedBytes(Some(nulls), NullAnimationCodec.NullAnimationWriter(e), e);
    NullAnimationCodec.NullAnimationsRoundTrip(nulls, e);
    BoundedWritten(s, q, nulls, e, MAX_NULL_ANIMATIONS, TOO_MANY_NULLS,
                   NullAnimationCodec.NullAnimationReader(e), NullAnimationCodec.NullAnimationWriter(e), NoCheck(), t);
  }

  /** The trigger array, as Write lays it out, is read back. */
  lemma TriggersReadBack(s: Bytes, t: nat, triggers: seq<Trigger>, e: Endian, end: nat)
    requires |triggers| < MAX_TRIGGERS
    requires WriteCounted(Some(triggers), TriggerWriter(e), e).Ok?
    requires At(s, t, WriteCounted(Some(triggers), TriggerWriter(e), e).value)
    requires end == t + |WriteCounted(Some(triggers), TriggerWriter(e), e).value|
    ensures ReadBounded(s, t, e, MAX_TRIGGERS, TOO_MANY_TRIGGERS, TriggerReader(e), NoCheck()) == Ok((triggers, end))
  {
    CountedBytes(Some(triggers), TriggerWriter(e), e);
    TriggersRoundTrip(triggers, e);
    BoundedWritten(s, t, triggers, e, MAX_TRIGGERS, TOO_MANY_TRIGGERS, TriggerReader(e), TriggerWriter(e), NoCheck(), end);
  }

  /** The three arrays, laid out as Write lays them out, are read back. */
  lemma ArraysReadBack<L>(s: Bytes, a: Animation<L>, e: Endian, layer: Reader<L>, write: Writer<L>,
                          h: nat, q: nat, t: nat, end: nat)
    requires Accepted(a) && AllReadBack(layer, write, NoCheck(), 0, a.layers.value)
    requires WriteCounted(a.layers, write, e).Ok?
    requires WriteCounted(a.nulls, NullAnimationCodec.NullAnimationWriter(e), e).Ok?
    requires WriteCounted(a.triggers, TriggerWriter(e), e).Ok?
    requires At(s, h, WriteCounted(a.layers, write, e).value
                      + WriteCounted(a.nulls, NullAnimationCodec.NullAnimationWriter(e), e).value
                      + WriteCounted(a.triggers, TriggerWriter(e), e).value)
    requires q == h + |WriteCounted(a.layers, write, e).value|
    requires t == q + |WriteCounted(a.nulls, NullAnimationCodec.NullAnimationWriter(e), e).value|
    requires end == t + |WriteCounted(a.triggers, TriggerWriter(e), e).value|
    ensures ArraysAt(s, h, e, layer) == Ok(((a.layers.value, a.nulls.value, a.triggers.value), end))
  {
    var layers := WriteCounted(a.layers, write, e).value;
    var nulls := WriteCounted(a.nulls, NullAnimationCodec.NullAnimationWriter(e), e).value;
    var triggers := WriteCounted(a.triggers, TriggerWriter(e), e).value;
    AtSplit(s, h, layers + nulls, triggers);
    AtSplit(s, h, layers, nulls);
    LayersReadBack(s, h, a.layers.value, e, layer, write, q);
    NullsReadBack(s, q, a.nulls.value, e, t);
    TriggersReadBack(s, t, a.triggers.value, e, end);
  }

  /** Read's head, then its arrays, make up the animation. */
  lemma AnimationAtStages<L>(s: Bytes, p: nat, e: Endian, layer: Reader<L>, head: Head, h: nat,
                             layers: seq<L>, nulls: seq<NullAnimation>, triggers: seq<Trigger>, end: nat)
    requires HeadAt(s, p, e) == Ok((head, h))
    requires ArraysAt(s, h, e, layer) == Ok(((layers, nulls, triggers), end))
    ensures AnimationAt(s, p, e, layer)
         == Ok((Animation(Some(head.name), head.frameNum, head.loop, head.root, Some(layers), Some(nulls), Some(triggers)), end))
  {
  }

  /** Where Write's output sits, each head field and then the three arrays sit one after the other. */
  lemma WrittenPieces<L>(s: Bytes, p: nat, a: Animation<L>, e: Endian, write: Writer<L>)
    requires AnimationWriter(e, write)(a).Ok? && At(s, p, AnimationWriter(e, write)(a).value)
    ensures a.name.Some?
    ensures WriteCounted(a.layers, write, e).Ok?
    ensures WriteCounted(a.nulls, NullAnimationCodec.NullAnimationWriter(e), e).Ok?
    ensures WriteCounted(a.triggers, TriggerWriter(e), e).Ok?
    ensures At(s, p, EncodeString(a.name.value, e))
    ensures At(s, p + 2 + |a.name.value|, EncodeU32N(a.frameNum, e))
    ensures At(s, p + 2 + |a.name.value| + 4, EncodeBool(a.loop))
    ensures At(s, p + 2 + |a.name.value| + 5, RootAnimationCodec.RootAnimationWriter(e)(a.root).value)
    ensures At(s, p + 2 + |a.name.value| + 5 + |RootAnimationCodec.RootAnimationWriter(e)(a.root).value|,
               WriteCounted(a.layers, write, e).value
               + WriteCounted(a.nulls, NullAnimationCodec.NullAnimationWriter(e), e).value
               + WriteCounted(a.triggers, TriggerWriter(e), e).value)
    ensures |AnimationWriter(e, write)(a).value|
         == 2 + |a.name.value| + 5 + |RootAnimationCodec.RootAnimationWriter(e)(a.root).value|
            + |WriteCounted(a.layers, write, e).value|
            + |WriteCounted(a.nulls, NullAnimationCodec.NullAnimationWriter(e), e).value|
            + |WriteCounted(a.triggers, TriggerWriter(e), e).value|
  {
    NullAnimationCodec.NullAnimationsWrite(ItemsOf(a.nulls), e);
    TriggersWrite(ItemsOf(a.triggers), e);
    var name := EncodeString(a.name.value, e);
    var head := HeadBytes(name, a, e);
    var arrays := WriteCounted(a.layers, write, e).value
                  + WriteCounted(a.nulls, NullAnimationCodec.NullAnimationWriter(e), e).value
                  + WriteCounted(a.triggers, TriggerWriter(e), e).value;
    assert AnimationWriter(e, write)(a).value == head + arrays;
    AtSplit(s, p, head, arrays);
    AtSplit4(s, p, name, EncodeU32N(a.frameNum, e), EncodeBool(a.loop), RootAnimationCodec.RootAnimationBytes(a.root, e).value);
  }

  /** Where Write's output sits, Read's head ends at `h` and its arrays at `end`. */
  lemma StagesReadBack<L>(s: Bytes, p: nat, a: Animation<L>, e: Endian, layer: Reader<L>, write: Writer<L>,
                          h: nat, end: nat)
    requires Accepted(a) && AllReadBack(layer, write, NoCheck(), 0, a.layers.value)
    requires AnimationWriter(e, write)(a).Ok? && At(s, p, AnimationWriter(e, write)(a).value)
    requires h == p + 2 + |a.name.value| + 5 + |RootAnimationCodec.RootAnimationWriter(e)(a.root).value|
    requires end == p + |AnimationWriter(e, write)(a).value|
    ensures HeadAt(s, p, e) == Ok((Head(a.name.value, a.frameNum, a.loop, a.root), h))
    ensures ArraysAt(s, h, e, layer) == Ok(((a.layers.value, a.nulls.value, a.triggers.value), end))
  {
    WrittenPieces(s, p, a, e, write);
    var q := h + |WriteCounted(a.layers, write, e).value|;
    var t := q + |WriteCounted(a.nulls, NullAnimationCodec.NullAnimationWriter(e), e).value|;
    HeadReadBack(s, p, a.name.value, a.frameNum, a.loop, a.root, e, h);
    ArraysReadBack(s, a, e, layer, write, h, q, t, end);
  }

  /** A head ending at `h` and arrays from `h` to `end` are what the animation reader returns. */
  lemma AnimationFromStages<L>(s: Bytes, p: nat, a: Animation<L>, e: Endian, layer: Reader<L>, h: nat, end: nat)
    requires Accepted(a)
    requires HeadAt(s, p, e) == Ok((Head(a.name.value, a.frameNum, a.loop, a.root), h))
    requires ArraysAt(s, h, e, layer) == Ok(((a.layers.value, a.nulls.value, a.triggers.value), end))
    ensures AnimationReader(e, layer)(s, p) == Ok((a, end))
  {
    AnimationAtStages(s, p, e, layer, Head(a.name.value, a.frameNum, a.loop, a.root), h,
                      a.layers.value, a.nulls.value, a.triggers.value, end);
  }

  /** One placement of the round trip, ending at `end`. */
  lemma ReadsBackAt<L>(s: Bytes, p: nat, a: Animation<L>, e: Endian, layer: Reader<L>, write: Writer<L>, end: nat)
    requires Accepted(a) && AllReadBack(layer, write, NoCheck(), 0, a.layers.value)
    requires AnimationWriter(e, write)(a).Ok? && At(s, p, AnimationWriter(e, write)(a).value)
    requires end == p + |AnimationWriter(e, write)(a).value|
    ensures AnimationReader(e, layer)(s, p) == Ok((a, end))
  {
    var h := p + 2 + |a.name.value| + 5 + |RootAnimationCodec.RootAnimationWriter(e)(a.root).value|;
    StagesReadBack(s, p, a, e, layer, write, h, end);
    AnimationFromStages(s, p, a, e, layer, h, end);
  }

  /**
   * An accepted animation whose layers read back is read back wherever Write puts it:
   * Read(Write(a)) == a for every layer format that round-trips.
   */
  lemma AnimationRoundTrips<L>(a: Animation<L>, e: Endian, layer: Reader<L>, write: Writer<L>)
    requires Accepted(a) && AllReadBack(layer, write, NoCheck(), 0, a.layers.value)
    ensures ReadsBack(AnimationReader(e, layer), AnimationWriter(e, write), a)
  {
    if AnimationWriter(e, write)(a).Ok? {
      forall s: Bytes, p: nat, end: nat | At(s, p, AnimationWriter(e, write)(a).value) && end == p + |AnimationWriter(e, write)(a).value|
        ensures AnimationReader(e, layer)(s, p) == Ok((a, end))
      {
        ReadsBackAt(s, p, a, e, layer, write, end);
      }
    }
    ReadsBackFromPlacements(AnimationReader(e, layer), AnimationWriter(e, write), a);
  }

  // ---------------------------------------------------------------------------
  // Write does not enforce the bounds

  /** The message of the first array, in Read's order, whose count is 32 or more (a null array counts 0). */
  function Overflow<L>(a: Animation<L>): (r: Option<string>)
    ensures r.None? <==> |ItemsOf(a.layers)| < MAX_LAYER_ANIMATIONS && |ItemsOf(a.nulls)| < MAX_NULL_ANIMATIONS
                         && |ItemsOf(a.triggers)| < MAX_TRIGGERS
  {
    if |ItemsOf(a.layers)| >= MAX_LAYER_ANIMATIONS then Some(TOO_MANY_LAYERS)
    else if |ItemsOf(a.nulls)| >= MAX_NULL_ANIMATIONS then Some(TOO_MANY_NULLS)
    else if |ItemsOf(a.triggers)| >= MAX_TRIGGERS then Some(TOO_MANY_TRIGGERS)
    else None
  }

  /** A failure of the arrays after a good head is the failure of Read. */
  lemma ArraysRejected<L>(s: Bytes, p: nat, e: Endian, layer: Reader<L>, head: Head, h: nat)
    requires HeadAt(s, p, e) == Ok((head, h)) && ArraysAt(s, h, e, layer).Err?
    ensures AnimationAt(s, p, e, layer) == Err(ArraysAt(s, h, e, layer).error)
  {
  }

  /** The arrays as Write lays them out, with one over its bound, are rejected with that array's message. */
  lemma ArraysOverflow<L>(s: Bytes, a: Animation<L>, e: Endian, layer: Reader<L>, write: Writer<L>, h: nat)
    requires Overflow(a).Some?
    requires |ItemsOf(a.layers)| < TWO_32 && |ItemsOf(a.nulls)| < TWO_32 && |ItemsOf(a.triggers)| < TWO_32
    requires |ItemsOf(a.layers)| < MAX_LAYER_ANIMATIONS ==> AllReadBack(layer, write, NoCheck(), 0, ItemsOf(a.layers))
    requires |ItemsOf(a.nulls)| < MAX_NULL_ANIMATIONS ==>
               forall k :: 0 <= k < |ItemsOf(a.nulls)| ==> NullAnimationCodec.Accepted(ItemsOf(a.nulls)[k])
    requires WriteCounted(a.layers, write, e).Ok?
    requires WriteCounted(a.nulls, NullAnimationCodec.NullAnimationWriter(e), e).Ok?
    requires WriteCounted(a.triggers, TriggerWriter(e), e).Ok?
    requires At(s, h, WriteCounted(a.layers, write, e).value
                      + WriteCounted(a.nulls, NullAnimationCodec.NullAnimationWriter(e), e).value
                      + WriteCounted(a.triggers, TriggerWriter(e), e).value)
    ensures ArraysAt(s, h, e, layer) == Err(Format(Overflow(a).value))
  {
    var nullWriter, nullReader := NullAnimationCodec.NullAnimationWriter(e), NullAnimationCodec.NullAnimationReader(e);
    var layers := WriteCounted(a.layers, write, e).value;
    var nulls := WriteCounted(a.nulls, nullWriter, e).value;
    var triggers := WriteCounted(a.triggers, TriggerWriter(e), e).value;
    AtSplit(s, h, layers + nulls, triggers);
    AtSplit(s, h, layers, nulls);
    if |ItemsOf(a.layers)| >= MAX_LAYER_ANIMATIONS {
      CountedOverBound(s, h, a.layers, e, MAX_LAYER_ANIMATIONS, TOO_MANY_LAYERS, layer, write, NoCheck());
      return;
    }
    var q := h + |layers|;
    CountedUnderBound(s, h, a.layers, e, MAX_LAYER_ANIMATIONS, TOO_MANY_LAYERS, layer, write, NoCheck(), q);
    if |ItemsOf(a.nulls)| >= MAX_NULL_ANIMATIONS {
      CountedOverBound(s, q, a.nulls, e, MAX_NULL_ANIMATIONS, TOO_MANY_NULLS, nullReader, nullWriter, NoCheck());
      return;
    }
    var t := q + |nulls|;
    NullAnimationCodec.NullAnimationsRoundTrip(ItemsOf(a.nulls), e);
    CountedUnderBound(s, q, a.nulls, e, MAX_NULL_ANIMATIONS, TOO_MANY_NULLS, nullReader, nullWriter, NoCheck(), t);
    CountedOverBound(s, t, a.triggers, e, MAX_TRIGGERS, TOO_MANY_TRIGGERS, TriggerReader(e), TriggerWriter(e), NoCheck());
  }

  /**
   * Write does not enforce the bounds: an animation with 32 or more layers, null
   * animations or triggers is written, and Read rejects those bytes wherever they sit
   * with the message of the first such array it meets.
   */
  lemma WriteUnbounded<L>(s: Bytes, p: nat, a: Animation<L>, e: Endian, layer: Reader<L>, write: Writer<L>)
    requires Lossless(a.name) && RootAnimationCodec.Accepted(a.root) && Overflow(a).Some?
    requires |ItemsOf(a.layers)| < TWO_32 && |ItemsOf(a.nulls)| < TWO_32 && |ItemsOf(a.triggers)| < TWO_32
    requires |ItemsOf(a.layers)| < MAX_LAYER_ANIMATIONS ==> AllReadBack(layer, write, NoCheck(), 0, ItemsOf(a.layers))
    requires |ItemsOf(a.nulls)| < MAX_NULL_ANIMATIONS ==>
               forall k :: 0 <= k < |ItemsOf(a.nulls)| ==> NullAnimationCodec.Accepted(ItemsOf(a.nulls)[k])
    requires AnimationBytes(a, e, write).Ok? && At(s, p, AnimationBytes(a, e, write).value)
    ensures AnimationAt(s, p, e, layer) == Err(Format(Overflow(a).value))
  {
    assert AnimationWriter(e, write)(a) == AnimationBytes(a, e, write);
    WrittenPieces(s, p, a, e, write);
    var h := p + 2 + |a.name.value| + 5 + |RootAnimationCodec.RootAnimationWriter(e)(a.root).value|;
    HeadReadBack(s, p, a.name.value, a.frameNum, a.loop, a.root, e, h);
    ArraysOverflow(s, a, e, layer, write, h);
    ArraysRejected(s, p, e, layer, Head(a.name.value, a.frameNum, a.loop, a.root), h);
  }
}
