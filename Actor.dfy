/**
 * Animation.AnimatedActor: an actor's content, the name of its default animation and
 * its animations. Read takes them in that order, the animations behind a u32 count
 * with no bound of its own; Write emits them in the same order, the count as S32 and
 * a null animation array as a count of 0.
 *
 * AnimatedActor.Write hands the content to Content.Write, which leaves out the base
 * path Read expects first. SourceActorBytes is that writer, and WriteActor its loop, and SourceActorNotReadBack
 * shows an actor it writes that Read rejects. ActorBytes is the corrected writer, with
 * the content written base path first (ContentCodec.ContentBytes), and ActorRoundTrips
 * is proved for it.
 */
module ActorCodec {
  import opened Wrappers
  import opened ByteIO
  import opened Arith
  import opened Records
  import opened StreamHelpers
  import ContentCodec
  import AnimationCodec

  type Content = ContentCodec.Content
  type Animation<L> = AnimationCodec.Animation<L>

  datatype Actor<L> = Actor(content: Content, defaultAnimation: Option<Text>, animations: Option<seq<Animation<L>>>)

  /** AnimatedActor.Read: the content, the default animation's name, then the counted animations. */
  function ActorAt<L>(s: Bytes, pos: nat, e: Endian, layer: Reader<L>): (r: Result<(Actor<L>, nat)>)
    ensures ContentCodec.ContentAt(s, pos, e).Err? ==> r == Err(ContentCodec.ContentAt(s, pos, e).error)
    ensures r.Ok? ==> var a := r.value.0;
      && ContentCodec.Valid(a.content)
      && Lossless(a.defaultAnimation)
      && a.animations.Some?
  {
    var content :- ContentCodec.ContentAt(s, pos, e);
    ContentCodec.ReadIsValid(s, pos, e);
    var name :- ReadString(s, content.1, e);
    var animations :- ReadCounted(s, name.1, e, AnimationCodec.AnimationReader(e, layer), NoCheck());
    Ok((Actor(content.0, Some(name.0), Some(animations.0)), animations.1))
  }

  /** The Read method, with AnimatedActor.Read's animation-filling loop. */
  method ReadActor<L>(s: Bytes, pos: nat, e: Endian, layer: Reader<L>) returns (r: Result<(Actor<L>, nat)>)
    ensures r == ActorAt(s, pos, e, layer)
  {
    var content := ContentCodec.ReadContent(s, pos, e);
    if content.Err? {
      return Err(content.error);
    }
    var name := ReadString(s, content.value.1, e);
    if name.Err? {
      return Err(name.error);
    }
    var animations := ReadCountedArray(s, name.value.1, e, AnimationCodec.AnimationReader(e, layer), NoCheck());
    if animations.Err? {
      return Err(animations.error);
    }
    r := Ok((Actor(content.value.0, Some(name.value.0), Some(animations.value.0)), animations.value.1));
  }

  /** The corrected writer: the content base path first (ContentBytes), the default animation's name, then the counted animations. */
  function ActorBytes<L>(a: Actor<L>, e: Endian, layer: Writer<L>): (r: Result<Bytes>)
    ensures r.Ok? <==>
      && ContentCodec.ContentBytes(a.content, e).Ok? && WriteString(a.defaultAnimation, e).Ok?
      && WriteMany(ItemsOf(a.animations), AnimationCodec.AnimationWriter(e, layer)).Ok?
    ensures ContentCodec.ContentBytes(a.content, e).Ok? && a.defaultAnimation.None? ==> r == Err(ArgumentNull)
  {
    var content :- ContentCodec.ContentBytes(a.content, e);
    var name :- WriteString(a.defaultAnimation, e);
    var animations :- WriteCounted(a.animations, AnimationCodec.AnimationWriter(e, layer), e);
    Ok(content + name + animations)
  }

  /** AnimatedActor.Write, with its `foreach` over the animations: the content through Content.Write. */
  method WriteActor<L>(a: Actor<L>, e: Endian, layer: Writer<L>) returns (r: Result<Bytes>)
    ensures r == SourceActorBytes(a, e, layer)
  {
    var content := ContentCodec.WriteContent(a.content, e);
    if content.Err? {
      return Err(content.error);
    }
    var name := WriteString(a.defaultAnimation, e);
    if name.Err? {
      return Err(name.error);
    }
    var animations := WriteArray(ItemsOf(a.animations), AnimationCodec.AnimationWriter(e, layer));
    if animations.Err? {
      return Err(animations.error);
    }
    r := Ok(content.value + name.value + (EncodeCount(|ItemsOf(a.animations)|, e) + animations.value));
  }

  function ActorReader<L>(e: Endian, layer: Reader<L>): Reader<Actor<L>>
  {
    (s: Bytes, p: nat) => ActorAt(s, p, e, layer)
  }

  function ActorWriter<L>(e: Endian, layer: Writer<L>): Writer<Actor<L>>
  {
    (a: Actor<L>) => ActorBytes(a, e, layer)
  }

  /**
   * AnimatedActor.Write as written: the content goes through Content.Write,
   * which writes the tables without the base path.
   */
  function SourceActorBytes<L>(a: Actor<L>, e: Endian, layer: Writer<L>): (r: Result<Bytes>)
    ensures r.Ok? <==>
      && ContentCodec.TablesBytes(a.content, e).Ok? && WriteString(a.defaultAnimation, e).Ok?
      && WriteMany(ItemsOf(a.animations), AnimationCodec.AnimationWriter(e, layer)).Ok?
  {
    var tables :- ContentCodec.TablesBytes(a.content, e);
    var name :- WriteString(a.defaultAnimation, e);
    var animations :- WriteCounted(a.animations, AnimationCodec.AnimationWriter(e, layer), e);
    Ok(tables + name + animations)
  }

  /** The corrected writer succeeds exactly when AnimatedActor.Write does and the base path can be written. */
  lemma CorrectedOkIff<L>(a: Actor<L>, e: Endian, layer: Writer<L>)
    ensures ActorBytes(a, e, layer).Ok? <==> WriteString(a.content.basePath, e).Ok? && SourceActorBytes(a, e, layer).Ok?
  {
  }

  /** The corrected writer differs from AnimatedActor.Write by exactly the base path in front. */
  lemma CorrectedAddsBasePath<L>(a: Actor<L>, e: Endian, layer: Writer<L>)
    ensures ActorBytes(a, e, layer).Ok? <==> WriteString(a.content.basePath, e).Ok? && SourceActorBytes(a, e, layer).Ok?
    ensures ActorBytes(a, e, layer).Ok? ==>
      ActorBytes(a, e, layer).value == WriteString(a.content.basePath, e).value + SourceActorBytes(a, e, layer).value
  {
    CorrectedOkIff(a, e, layer);
    if ActorBytes(a, e, layer).Ok? {
      ContentCodec.ContentIsBaseAndTables(a.content, e);
      ActorPieces(a, e, layer);
      Regroup(ActorBytes(a, e, layer).value, SourceActorBytes(a, e, layer).value,
        ContentCodec.ContentBytes(a.content, e).value,
        WriteString(a.content.basePath, e).value, ContentCodec.TablesBytes(a.content, e).value,
        WriteString(a.defaultAnimation, e).value, WriteCounted(a.animations, AnimationCodec.AnimationWriter(e, layer), e).value);
    }
  }

  /** Moving a prefix from the front of one part to the front of the whole. */
  lemma Regroup(whole: Bytes, source: Bytes, content: Bytes, base: Bytes, tables: Bytes, name: Bytes, animations: Bytes)
    requires whole == content + name + animations && content == base + tables
    requires source == tables + name + animations
    ensures whole == base + source
  {
    assert (base + tables) + name + animations == base + (tables + name + animations);
  }

  /** Each writer's bytes when it succeeds: what precedes the name, the name, the counted animations. */
  lemma ActorPieces<L>(a: Actor<L>, e: Endian, layer: Writer<L>)
    ensures ActorBytes(a, e, layer).Ok? ==>
      && ContentCodec.ContentBytes(a.content, e).Ok? && ContentCodec.TablesBytes(a.content, e).Ok?
      && WriteString(a.defaultAnimation, e).Ok?
      && WriteCounted(a.animations, AnimationCodec.AnimationWriter(e, layer), e).Ok?
    ensures ActorBytes(a, e, layer).Ok? ==>
      ActorBytes(a, e, layer).value
      == ContentCodec.ContentBytes(a.content, e).value + WriteString(a.defaultAnimation, e).value
         + WriteCounted(a.animations, AnimationCodec.AnimationWriter(e, layer), e).value
    ensures SourceActorBytes(a, e, layer).Ok? ==>
      SourceActorBytes(a, e, layer).value
      == ContentCodec.TablesBytes(a.content, e).value + WriteString(a.defaultAnimation, e).value
         + WriteCounted(a.animations, AnimationCodec.AnimationWriter(e, layer), e).value
  {
  }

  /** The smallest actor Read accepts: the smallest content, an empty default name, no animations. */
  function Smallest<L>(): (a: Actor<L>)
    ensures Accepted(a)
  {
    ContentCodec.SmallestTables(ContentCodec.SMALLEST);
    Actor(ContentCodec.SMALLEST, Some([]), Some([]))
  }

  /**
   * What AnimatedActor.Write emits for an actor is not read back: wherever the smallest
   * actor's bytes sit, Read fails on the content with "invalid spritesheet ID", while
   * the corrected writer's bytes for it read back (ActorRoundTrips).
   */
  lemma SourceActorNotReadBack<L>(s: Bytes, p: nat, layer: Reader<L>, write: Writer<L>)
    requires SourceActorBytes(Smallest<L>(), Little, write).Ok?
    requires At(s, p, SourceActorBytes(Smallest<L>(), Little, write).value)
    ensures ActorAt(s, p, Little, layer) == Err(Format(ContentCodec.INVALID_SPRITESHEET))
    ensures ReadsBack(ActorReader(Little, layer), ActorWriter(Little, write), Smallest<L>())
  {
    var a := Smallest<L>();
    var tables := ContentCodec.TablesBytes(a.content, Little).value;
    var name := WriteString(a.defaultAnimation, Little).value;
    var animations := WriteCounted(a.animations, AnimationCodec.AnimationWriter(Little, write), Little).value;
    AtSplit(s, p, tables + name, animations);
    AtSplit(s, p, tables, name);
    ContentCodec.WrittenAsSourceNotReadBack(a.content, s, p);
    ActorRoundTrips(a, Little, layer, write);
  }

  /** Valid content, a writable default name, and animations each of which Read can return. */
  predicate Accepted<L>(a: Actor<L>)
  {
    && ContentCodec.Valid(a.content)
    && Lossless(a.defaultAnimation)
    && a.animations.Some? && |a.animations.value| < TWO_32
    && forall k :: 0 <= k < |a.animations.value| ==> AnimationCodec.Accepted(a.animations.value[k])
  }

  /** Every layer of every animation reads back through the layer format given. */
  ghost predicate LayersReadBack<L>(a: Actor<L>, layer: Reader<L>, write: Writer<L>)
    requires a.animations.Some?
  {
    forall k :: 0 <= k < |a.animations.value| ==>
      a.animations.value[k].layers.Some? && AllReadBack(layer, write, NoCheck(), 0, a.animations.value[k].layers.value)
  }

  /** The animations, each accepted with layers that read back, read back one after the other. */
  lemma AnimationsReadBack<L>(anims: seq<Animation<L>>, e: Endian, layer: Reader<L>, write: Writer<L>)
    requires forall k :: 0 <= k < |anims| ==>
      AnimationCodec.Accepted(anims[k]) && AllReadBack(layer, write, NoCheck(), 0, anims[k].layers.value)
    ensures AllReadBack(AnimationCodec.AnimationReader(e, layer), AnimationCodec.AnimationWriter(e, write), NoCheck(), 0, anims)
  {
    forall k | 0 <= k < |anims|
      ensures ReadsBack(AnimationCodec.AnimationReader(e, layer), AnimationCodec.AnimationWriter(e, write), anims[k])
           && NoCheck<Animation<L>>()(0 + k, anims[k]).Ok?
    {
      AnimationCodec.AnimationRoundTrips(anims[k], e, layer, write);
    }
    AllReadBackOf(AnimationCodec.AnimationReader(e, layer), AnimationCodec.AnimationWriter(e, write), NoCheck(), 0, anims);
  }

  /** Where Write's output sits, the content, the name and the counted animations sit one after the other. */
  lemma WrittenPieces<L>(s: Bytes, p: nat, a: Actor<L>, e: Endian, write: Writer<L>)
    requires ActorBytes(a, e, write).Ok? && At(s, p, ActorBytes(a, e, write).value)
    ensures At(s, p, ContentCodec.ContentBytes(a.content, e).value)
    ensures At(s, p + |ContentCodec.ContentBytes(a.content, e).value|, EncodeString(a.defaultAnimation.value, e))
    ensures At(s, p + |ContentCodec.ContentBytes(a.content, e).value| + 2 + |a.defaultAnimation.value|,
               WriteCounted(a.animations, AnimationCodec.AnimationWriter(e, write), e).value)
    ensures |ActorBytes(a, e, write).value|
         == |ContentCodec.ContentBytes(a.content, e).value| + 2 + |a.defaultAnimation.value|
            + |WriteCounted(a.animations, AnimationCodec.AnimationWriter(e, write), e).value|
  {
    var content := ContentCodec.ContentBytes(a.content, e).value;
    var name := EncodeString(a.defaultAnimation.value, e);
    var animations := WriteCounted(a.animations, AnimationCodec.AnimationWriter(e, write), e).value;
    assert ActorBytes(a, e, write).value == content + name + animations;
    AtSplit(s, p, content + name, animations);
    AtSplit(s, p, content, name);
  }

  /** The counted animations, as Write lays them out, are read back by the animation loop. */
  lemma CountedAnimationsReadBack<L>(s: Bytes, t: nat, anims: seq<Animation<L>>, e: Endian, layer: Reader<L>, write: Writer<L>,
                                     end: nat)
    requires |anims| < TWO_32 && forall k :: 0 <= k < |anims| ==>
      AnimationCodec.Accepted(anims[k]) && AllReadBack(layer, write, NoCheck(), 0, anims[k].layers.value)
    requires WriteCounted(Some(anims), AnimationCodec.AnimationWriter(e, write), e).Ok?
    requires At(s, t, WriteCounted(Some(anims), AnimationCodec.AnimationWriter(e, write), e).value)
    requires end == t + |WriteCounted(Some(anims), AnimationCodec.AnimationWriter(e, write), e).value|
    ensures ReadCounted(s, t, e, AnimationCodec.AnimationReader(e, layer), NoCheck()) == Ok((anims, end))
  {
    AnimationsReadBack(anims, e, layer, write);
    CountedBytes(Some(anims), AnimationCodec.AnimationWriter(e, write), e);
    CountedReadBack(s, t, anims, e, AnimationCodec.AnimationReader(e, layer), AnimationCodec.AnimationWriter(e, write), NoCheck(), end);
  }

  /** Read's three stages, met one after the other, make up the actor. */
  lemma ActorFromStages<L>(s: Bytes, p: nat, a: Actor<L>, e: Endian, layer: Reader<L>, q: nat, t: nat, end: nat)
    requires a.defaultAnimation.Some? && a.animations.Some?
    requires ContentCodec.ContentAt(s, p, e) == Ok((a.content, q))
    requires ReadString(s, q, e) == Ok((a.defaultAnimation.value, t))
    requires ReadCounted(s, t, e, AnimationCodec.AnimationReader(e, layer), NoCheck()) == Ok((a.animations.value, end))
    ensures ActorAt(s, p, e, layer) == Ok((a, end))
  {
  }

  /** Where Write's output sits, Read's content ends at `q`. */
  lemma ContentStage<L>(s: Bytes, p: nat, a: Actor<L>, e: Endian, write: Writer<L>, q: nat)
    requires ContentCodec.Valid(a.content) && ActorBytes(a, e, write).Ok? && At(s, p, ActorBytes(a, e, write).value)
    requires q == p + |ContentCodec.ContentBytes(a.content, e).value|
    ensures ContentCodec.ContentAt(s, p, e) == Ok((a.content, q))
  {
    WrittenPieces(s, p, a, e, write);
    ContentCodec.ContentReadBackAt(s, p, a.content, e, p + 2 + |a.content.basePath.value|, q);
  }

  /** A name written behind other bytes is read back from where those bytes end. */
  lemma NameStage(s: Bytes, p: nat, content: Bytes, name: Text, rest: Bytes, e: Endian, q: nat, t: nat)
    requires Lossless(Some(name)) && At(s, p, content + EncodeString(name, e) + rest)
    requires q == p + |content| && t == q + 2 + |name|
    ensures ReadString(s, q, e) == Ok((name, t))
  {
    AtSplit(s, p, content + EncodeString(name, e), rest);
    AtSplit(s, p, content, EncodeString(name, e));
    ReadStringAt(s, q, name, e);
  }

  /** Where Write's output sits, Read's animations run from `t` to `end`. */
  lemma TailReadBack<L>(s: Bytes, p: nat, a: Actor<L>, e: Endian, layer: Reader<L>, write: Writer<L>, t: nat, end: nat)
    requires Accepted(a) && LayersReadBack(a, layer, write)
    requires ActorBytes(a, e, write).Ok? && At(s, p, ActorBytes(a, e, write).value)
    requires t == p + |ContentCodec.ContentBytes(a.content, e).value| + 2 + |a.defaultAnimation.value|
    requires end == p + |ActorBytes(a, e, write).value|
    ensures ReadCounted(s, t, e, AnimationCodec.AnimationReader(e, layer), NoCheck()) == Ok((a.animations.value, end))
  {
    WrittenPieces(s, p, a, e, write);
    CountedAnimationsReadBack(s, t, a.animations.value, e, layer, write, end);
  }

  /** One placement of the round trip: the content ends at `q`, the name at `t`, the actor at `end`. */
  lemma ReadsBackAt<L>(s: Bytes, p: nat, a: Actor<L>, e: Endian, layer: Reader<L>, write: Writer<L>, q: nat, t: nat, end: nat)
    requires Accepted(a) && LayersReadBack(a, layer, write)
    requires ActorBytes(a, e, write).Ok? && At(s, p, ActorBytes(a, e, write).value)
    requires q == p + |ContentCodec.ContentBytes(a.content, e).value|
    requires t == q + 2 + |a.defaultAnimation.value|
    requires end == p + |ActorBytes(a, e, write).value|
    ensures ActorAt(s, p, e, layer) == Ok((a, end))
  {
    ContentStage(s, p, a, e, write, q);
    var content := ContentCodec.ContentBytes(a.content, e).value;
    var animations := WriteCounted(a.animations, AnimationCodec.AnimationWriter(e, write), e).value;
    assert ActorBytes(a, e, write).value == content + EncodeString(a.defaultAnimation.value, e) + animations;
    NameStage(s, p, content, a.defaultAnimation.value, animations, e, q, t);
    TailReadBack(s, p, a, e, layer, write, t, end);
    ActorFromStages(s, p, a, e, layer, q, t, end);
  }

  /**
   * An accepted actor whose layers read back is read back wherever Write puts it:
   * Read(Write(a)) == a, with the content written base path first.
   */
  lemma ActorRoundTrips<L>(a: Actor<L>, e: Endian, layer: Reader<L>, write: Writer<L>)
    requires Accepted(a) && LayersReadBack(a, layer, write)
    ensures ReadsBack(ActorReader(e, layer), ActorWriter(e, write), a)
  {
    if ActorBytes(a, e, write).Ok? {
      forall s: Bytes, p: nat, end: nat | At(s, p, ActorBytes(a, e, write).value) && end == p + |ActorBytes(a, e, write).value|
        ensures ActorAt(s, p, e, layer) == Ok((a, end))
      {
        var q := p + |ContentCodec.ContentBytes(a.content, e).value|;
        ReadsBackAt(s, p, a, e, layer, write, q, q + 2 + |a.defaultAnimation.value|, end);
      }
    }
    ReadsBackFromPlacements(ActorReader(e, layer), ActorWriter(e, write), a);
  }
}
