/**
 * Animation.Content: the spritesheets, layers, nulls and events an animated actor
 * draws on. Read takes a base spritesheet path, then four u32-counted arrays whose
 * records must carry their own index as id (under 32, or 16 for events), whose
 * layers must name a spritesheet that was read, and with at least one layer.
 *
 * Spritesheets, nulls and events share one layout (a u32 id, then a string), so
 * they share one record type, `Named`.
 */
module ContentCodec {
  import opened Wrappers
  import opened ByteIO
  import opened Arith
  import opened Records
  import opened StreamHelpers

  /** Content.Spritesheet (Id, Path), Content.Null and Content.Event (Id, Name). */
  datatype Named = Named(id: u32, name: Option<Text>)

  type Spritesheet = Named
  type Null = Named
  type Event = Named

  datatype Layer = Layer(id: u32, spritesheetId: u32, name: Option<Text>)

  datatype Content = Content(
    basePath: Option<Text>,
    spritesheets: Option<seq<Spritesheet>>,
    layers: Option<seq<Layer>>,
    nulls: Option<seq<Null>>,
    events: Option<seq<Event>>)

  const MAX_SPRITESHEETS: nat := 32
  const MAX_LAYERS: nat := 32
  const MAX_NULLS: nat := 32
  const MAX_EVENTS: nat := 16

  const INVALID_SPRITESHEET: string := "invalid spritesheet ID"
  const INVALID_LAYER: string := "invalid layer ID"
  const INVALID_NULL: string := "invalid Null ID"
  const INVALID_EVENT: string := "invalid Event ID"
  const NO_LAYERS: string := "no layers"

  // ---------------------------------------------------------------------------
  // The records

  /** ReadSpritesheet, ReadNull, ReadEvent: the id, then the string. */
  function NamedAt(s: Bytes, pos: nat, e: Endian): (r: Result<(Named, nat)>)
    ensures r.Ok? ==> Lossless(r.value.0.name)
  {
    var id :- ReadU32N(s, pos, e);
    var name :- ReadString(s, id.1, e);
    Ok((Named(id.0, Some(name.0)), name.1))
  }

  /** WriteSpritesheet, WriteNull, WriteEvent: the same two fields. */
  function NamedBytes(x: Named, e: Endian): (r: Result<Bytes>)
    ensures r.Ok? <==> x.name.Some? && |x.name.value| <= MAX_STRING_LENGTH
  {
    var name :- WriteString(x.name, e);
    Ok(EncodeU32N(x.id, e) + name)
  }

  /** ReadLayer: the id, the spritesheet id, then the name. */
  function LayerAt(s: Bytes, pos: nat, e: Endian): (r: Result<(Layer, nat)>)
    ensures r.Ok? ==> Lossless(r.value.0.name)
  {
    var id :- ReadU32N(s, pos, e);
    var sheet :- ReadU32N(s, id.1, e);
    var name :- ReadString(s, sheet.1, e);
    Ok((Layer(id.0, sheet.0, Some(name.0)), name.1))
  }

  /** WriteLayer: the same three fields. */
  function LayerBytes(x: Layer, e: Endian): (r: Result<Bytes>)
    ensures r.Ok? <==> x.name.Some? && |x.name.value| <= MAX_STRING_LENGTH
  {
    var name :- WriteString(x.name, e);
    Ok(EncodeU32N(x.id, e) + EncodeU32N(x.spritesheetId, e) + name)
  }

  function NamedReader(e: Endian): Reader<Named>
  {
    (s: Bytes, p: nat) => NamedAt(s, p, e)
  }

  function NamedWriter(e: Endian): Writer<Named>
  {
    (x: Named) => NamedBytes(x, e)
  }

  function LayerReader(e: Endian): Reader<Layer>
  {
    (s: Bytes, p: nat) => LayerAt(s, p, e)
  }

  function LayerWriter(e: Endian): Writer<Layer>
  {
    (x: Layer) => LayerBytes(x, e)
  }

  /** The id test of the spritesheet, null and event loops: the id is the index and under the bound. */
  function IdCheck(max: nat, msg: string): (c: Check<Named>)
    ensures forall i: nat, x: Named :: c(i, x).Ok? <==> x.id < max && x.id == i
  {
    (i: nat, x: Named) => if x.id >= max || x.id != i then Err(Format(msg)) else Ok(())
  }

  /** The layer loop's tests: first the id, then the spritesheet it names. */
  function LayerCheck(spritesheets: nat): (c: Check<Layer>)
    ensures forall i: nat, x: Layer :: c(i, x).Ok? <==> x.id < MAX_LAYERS && x.id == i && x.spritesheetId < spritesheets
  {
    (i: nat, x: Layer) =>
      if x.id >= MAX_LAYERS || x.id != i then Err(Format(INVALID_LAYER))
      else if x.spritesheetId >= spritesheets then Err(Format(INVALID_SPRITESHEET))
      else Ok(())
  }

  // ---------------------------------------------------------------------------
  // Content.Read

  /** The four arrays of Content, as Read returns them. */
  datatype Tables = Tables(spritesheets: seq<Spritesheet>, layers: seq<Layer>, nulls: seq<Null>, events: seq<Event>)

  /** Read after the base path: the four counted arrays, each record checked as it is read. */
  function TablesAt(s: Bytes, pos: nat, e: Endian): (r: Result<(Tables, nat)>)
  {
    var sheets :- ReadCounted(s, pos, e, NamedReader(e), IdCheck(MAX_SPRITESHEETS, INVALID_SPRITESHEET));
    var layers :- ReadCounted(s, sheets.1, e, LayerReader(e), LayerCheck(|sheets.0|));
    if |layers.0| == 0 then Err(Format(NO_LAYERS))
    else
      var nulls :- ReadCounted(s, layers.1, e, NamedReader(e), IdCheck(MAX_NULLS, INVALID_NULL));
      var events :- ReadCounted(s, nulls.1, e, NamedReader(e), IdCheck(MAX_EVENTS, INVALID_EVENT));
      Ok((Tables(sheets.0, layers.0, nulls.0, events.0), events.1))
  }

  /** Content.Read: the base spritesheet path, then the arrays. */
  function ContentAt(s: Bytes, pos: nat, e: Endian): (r: Result<(Content, nat)>)
  {
    var base :- ReadString(s, pos, e);
    var tables :- TablesAt(s, base.1, e);
    var t := tables.0;
    Ok((Content(Some(base.0), Some(t.spritesheets), Some(t.layers), Some(t.nulls), Some(t.events)), tables.1))
  }

  /** The Read method, with Content.Read's four array-filling loops. */
  method ReadContent(s: Bytes, pos: nat, e: Endian) returns (r: Result<(Content, nat)>)
    ensures r == ContentAt(s, pos, e)
  {
    var base := ReadString(s, pos, e);
    if base.Err? {
      return Err(base.error);
    }
    var sheets := ReadCountedArray(s, base.value.1, e, NamedReader(e), IdCheck(MAX_SPRITESHEETS, INVALID_SPRITESHEET));
    if sheets.Err? {
      return Err(sheets.error);
    }
    var layers := ReadCountedArray(s, sheets.value.1, e, LayerReader(e), LayerCheck(|sheets.value.0|));
    if layers.Err? {
      return Err(layers.error);
    }
    if |layers.value.0| == 0 {
      return Err(Format(NO_LAYERS));
    }
    var nulls := ReadCountedArray(s, layers.value.1, e, NamedReader(e), IdCheck(MAX_NULLS, INVALID_NULL));
    if nulls.Err? {
      return Err(nulls.error);
    }
    var events := ReadCountedArray(s, nulls.value.1, e, NamedReader(e), IdCheck(MAX_EVENTS, INVALID_EVENT));
    if events.Err? {
      return Err(events.error);
    }
    r := Ok((Content(Some(base.value.0), Some(sheets.value.0), Some(layers.value.0), Some(nulls.value.0),
                     Some(events.value.0)), events.value.1));
  }

  /** Records numbered by their index, fewer than `max`, every string present and writable. */
  predicate Numbered(xs: seq<Named>, max: nat)
  {
    && |xs| <= max
    && forall k :: 0 <= k < |xs| ==> xs[k].id == k && Lossless(xs[k].name)
  }

  /** Layers numbered by their index, at most 32, each naming one of `sheets` spritesheets, every name writable. */
  predicate Drawing(ls: seq<Layer>, sheets: nat)
  {
    && |ls| <= MAX_LAYERS
    && forall k :: 0 <= k < |ls| ==>
         ls[k].id == k && ls[k].spritesheetId < sheets && Lossless(ls[k].name)
  }

  /**
   * What Read returns: every array present; spritesheets, layers, nulls and events
   * numbered 0, 1, ... under their bounds; at least one layer, each naming a
   * spritesheet that exists; every string present and writable.
   */
  predicate Valid(c: Content)
  {
    && Lossless(c.basePath)
    && c.spritesheets.Some? && Numbered(c.spritesheets.value, MAX_SPRITESHEETS)
    && c.layers.Some? && 0 < |c.layers.value| && Drawing(c.layers.value, |c.spritesheets.value|)
    && c.nulls.Some? && Numbered(c.nulls.value, MAX_NULLS)
    && c.events.Some? && Numbered(c.events.value, MAX_EVENTS)
  }

  /** Named records that pass an id check of bound `max` are numbered. */
  lemma NamedArrayNumbered(s: Bytes, pos: nat, n: nat, e: Endian, max: nat, msg: string)
    requires ReadMany(s, pos, 0, n, NamedReader(e), IdCheck(max, msg)).Ok?
    ensures Numbered(ReadMany(s, pos, 0, n, NamedReader(e), IdCheck(max, msg)).value.0, max)
  {
    var xs := ReadMany(s, pos, 0, n, NamedReader(e), IdCheck(max, msg)).value.0;
    ReadManyChecked(s, pos, 0, n, NamedReader(e), IdCheck(max, msg));
    ReadManyEach(s, pos, 0, n, NamedReader(e), IdCheck(max, msg), NamedLossless);
    if xs != [] {
      assert IdCheck(max, msg)(|xs| - 1, xs[|xs| - 1]).Ok?;
    }
    forall k | 0 <= k < |xs|
      ensures Lossless(xs[k].name)
    {
      assert NamedLossless(xs[k]);
    }
  }

  /** A record whose name is written and read back unchanged. */
  predicate NamedLossless(x: Named)
  {
    Lossless(x.name)
  }

  /** A layer whose name is written and read back unchanged. */
  predicate LayerLossless(x: Layer)
  {
    Lossless(x.name)
  }

  /** Layers that pass the layer checks carry their index as id and name a spritesheet that exists. */
  lemma LayerArrayChecked(s: Bytes, pos: nat, n: nat, e: Endian, sheets: nat)
    requires ReadMany(s, pos, 0, n, LayerReader(e), LayerCheck(sheets)).Ok?
    ensures Drawing(ReadMany(s, pos, 0, n, LayerReader(e), LayerCheck(sheets)).value.0, sheets)
  {
    var ls := ReadMany(s, pos, 0, n, LayerReader(e), LayerCheck(sheets)).value.0;
    ReadManyChecked(s, pos, 0, n, LayerReader(e), LayerCheck(sheets));
    ReadManyEach(s, pos, 0, n, LayerReader(e), LayerCheck(sheets), LayerLossless);
    if ls != [] {
      assert LayerCheck(sheets)(|ls| - 1, ls[|ls| - 1]).Ok?;
    }
    forall k | 0 <= k < |ls|
      ensures Lossless(ls[k].name)
    {
      assert LayerLossless(ls[k]);
    }
  }

  /** Everything Read returns is valid: the id, reference and count checks all held. */
  lemma ReadIsValid(s: Bytes, pos: nat, e: Endian)
    requires ContentAt(s, pos, e).Ok?
    ensures Valid(ContentAt(s, pos, e).value.0)
  {
    var base := ReadString(s, pos, e).value;
    var p0 := base.1;
    var n0 := ReadU32N(s, p0, e).value;
    NamedArrayNumbered(s, n0.1, n0.0, e, MAX_SPRITESHEETS, INVALID_SPRITESHEET);
    var sheets := ReadMany(s, n0.1, 0, n0.0, NamedReader(e), IdCheck(MAX_SPRITESHEETS, INVALID_SPRITESHEET)).value;
    var n1 := ReadU32N(s, sheets.1, e).value;
    LayerArrayChecked(s, n1.1, n1.0, e, |sheets.0|);
    var layers := ReadMany(s, n1.1, 0, n1.0, LayerReader(e), LayerCheck(|sheets.0|)).value;
    var n2 := ReadU32N(s, layers.1, e).value;
    NamedArrayNumbered(s, n2.1, n2.0, e, MAX_NULLS, INVALID_NULL);
    var nulls := ReadMany(s, n2.1, 0, n2.0, NamedReader(e), IdCheck(MAX_NULLS, INVALID_NULL)).value;
    var n3 := ReadU32N(s, nulls.1, e).value;
    NamedArrayNumbered(s, n3.1, n3.0, e, MAX_EVENTS, INVALID_EVENT);
  }

  /** A layer count of 0 is rejected once the spritesheets are read, whatever follows it. */
  lemma NoLayersRejected(s: Bytes, pos: nat, e: Endian)
    requires ReadCounted(s, pos, e, NamedReader(e), IdCheck(MAX_SPRITESHEETS, INVALID_SPRITESHEET)).Ok?
    requires var after := ReadCounted(s, pos, e, NamedReader(e), IdCheck(MAX_SPRITESHEETS, INVALID_SPRITESHEET)).value.1;
      ReadU32N(s, after, e).Ok? && ReadU32N(s, after, e).value.0 == 0
    ensures TablesAt(s, pos, e) == Err(Format(NO_LAYERS))
  {
  }

  // ---------------------------------------------------------------------------
  // Content.Write

  /**
   * Content.Write as written: each array as an S32 count (a null array as
   * 0) and its records. BaseSpritesheetPath, the first thing Read takes, is never
   * written.
   */
  function TablesBytes(c: Content, e: Endian): (r: Result<Bytes>)
    ensures r.Ok? <==>
      && WriteMany(ItemsOf(c.spritesheets), NamedWriter(e)).Ok? && WriteMany(ItemsOf(c.layers), LayerWriter(e)).Ok?
      && WriteMany(ItemsOf(c.nulls), NamedWriter(e)).Ok? && WriteMany(ItemsOf(c.events), NamedWriter(e)).Ok?
  {
    var sheets :- WriteCounted(c.spritesheets, NamedWriter(e), e);
    var layers :- WriteCounted(c.layers, LayerWriter(e), e);
    var nulls :- WriteCounted(c.nulls, NamedWriter(e), e);
    var events :- WriteCounted(c.events, NamedWriter(e), e);
    Ok(sheets + layers + nulls + events)
  }

  /** Content.Write with the base path written first, as Read expects it. */
  function ContentBytes(c: Content, e: Endian): (r: Result<Bytes>)
    ensures c.basePath.None? ==> r == Err(ArgumentNull)
    ensures r.Ok? <==> WriteString(c.basePath, e).Ok? && TablesBytes(c, e).Ok?
  {
    var base :- WriteString(c.basePath, e);
    var tables :- TablesBytes(c, e);
    Ok(base + tables)
  }

  /** What Write emits is the base path's string followed by the four tables. */
  lemma ContentIsBaseAndTables(c: Content, e: Endian)
    ensures ContentBytes(c, e).Ok? ==> ContentBytes(c, e).value == WriteString(c.basePath, e).value + TablesBytes(c, e).value
  {
  }

  /** Content.Write, with its four `foreach` loops: the tables and no base path. */
  method WriteContent(c: Content, e: Endian) returns (r: Result<Bytes>)
    ensures r == TablesBytes(c, e)
  {
    var sheets := WriteArray(ItemsOf(c.spritesheets), NamedWriter(e));
    if sheets.Err? {
      return Err(sheets.error);
    }
    var layers := WriteArray(ItemsOf(c.layers), LayerWriter(e));
    if layers.Err? {
      return Err(layers.error);
    }
    var nulls := WriteArray(ItemsOf(c.nulls), NamedWriter(e));
    if nulls.Err? {
      return Err(nulls.error);
    }
    var events := WriteArray(ItemsOf(c.events), NamedWriter(e));
    if events.Err? {
      return Err(events.error);
    }
    r := Ok((EncodeCount(|ItemsOf(c.spritesheets)|, e) + sheets.value)
            + (EncodeCount(|ItemsOf(c.layers)|, e) + layers.value)
            + (EncodeCount(|ItemsOf(c.nulls)|, e) + nulls.value)
            + (EncodeCount(|ItemsOf(c.events)|, e) + events.value));
  }

  // ---------------------------------------------------------------------------
  // Reading back what the corrected Write emits

  /** A spritesheet, null or event record is read back wherever its bytes sit. */
  lemma NamedReadsBack(s: Bytes, p: nat, x: Named, e: Endian)
    requires NamedLossless(x) && At(s, p, NamedBytes(x, e).value)
    ensures NamedAt(s, p, e) == Ok((x, p + |NamedBytes(x, e).value|))
  {
    AtSplit(s, p, EncodeU32N(x.id, e), EncodeString(x.name.value, e));
    ReadU32NAt(s, p, x.id, e);
    ReadStringAt(s, p + 4, x.name.value, e);
  }

  /** A layer record is read back wherever its bytes sit. */
  lemma LayerReadsBack(s: Bytes, p: nat, x: Layer, e: Endian)
    requires LayerLossless(x) && At(s, p, LayerBytes(x, e).value)
    ensures LayerAt(s, p, e) == Ok((x, p + |LayerBytes(x, e).value|))
  {
    AtSplit(s, p, EncodeU32N(x.id, e) + EncodeU32N(x.spritesheetId, e), EncodeString(x.name.value, e));
    AtSplit(s, p, EncodeU32N(x.id, e), EncodeU32N(x.spritesheetId, e));
    ReadU32NAt(s, p, x.id, e);
    ReadU32NAt(s, p + 4, x.spritesheetId, e);
    ReadStringAt(s, p + 8, x.name.value, e);
  }

  lemma NamedRoundTrips(x: Named, e: Endian)
    requires NamedLossless(x)
    ensures ReadsBack(NamedReader(e), NamedWriter(e), x)
  {
    forall s: Bytes, p: nat, end: nat | At(s, p, NamedBytes(x, e).value) && end == p + |NamedBytes(x, e).value|
      ensures NamedAt(s, p, e) == Ok((x, end))
    {
      NamedReadsBack(s, p, x, e);
    }
    ReadsBackFromPlacements(NamedReader(e), NamedWriter(e), x);
  }

  lemma LayerRoundTrips(x: Layer, e: Endian)
    requires LayerLossless(x)
    ensures ReadsBack(LayerReader(e), LayerWriter(e), x)
  {
    forall s: Bytes, p: nat, end: nat | At(s, p, LayerBytes(x, e).value) && end == p + |LayerBytes(x, e).value|
      ensures LayerAt(s, p, e) == Ok((x, end))
    {
      LayerReadsBack(s, p, x, e);
    }
    ReadsBackFromPlacements(LayerReader(e), LayerWriter(e), x);
  }

  /** Numbered records read back and pass the id check, one after the other. */
  lemma NumberedReadBack(xs: seq<Named>, e: Endian, max: nat, msg: string)
    requires Numbered(xs, max)
    ensures AllReadBack(NamedReader(e), NamedWriter(e), IdCheck(max, msg), 0, xs)
  {
    forall k | 0 <= k < |xs|
      ensures ReadsBack(NamedReader(e), NamedWriter(e), xs[k]) && IdCheck(max, msg)(0 + k, xs[k]).Ok?
    {
      NamedRoundTrips(xs[k], e);
    }
    AllReadBackOf(NamedReader(e), NamedWriter(e), IdCheck(max, msg), 0, xs);
  }

  /** Layers drawing on `sheets` spritesheets read back and pass the layer checks. */
  lemma DrawingReadBack(ls: seq<Layer>, e: Endian, sheets: nat)
    requires Drawing(ls, sheets)
    ensures AllReadBack(LayerReader(e), LayerWriter(e), LayerCheck(sheets), 0, ls)
  {
    forall k | 0 <= k < |ls|
      ensures ReadsBack(LayerReader(e), LayerWriter(e), ls[k]) && LayerCheck(sheets)(0 + k, ls[k]).Ok?
    {
      LayerRoundTrips(ls[k], e);
    }
    AllReadBackOf(LayerReader(e), LayerWriter(e), LayerCheck(sheets), 0, ls);
  }

  /** A numbered array, as Write lays it out, is read back by the loop that checks its ids. */
  lemma NamedArrayReadBack(s: Bytes, p: nat, xs: seq<Named>, e: Endian, max: nat, msg: string, end: nat)
    requires Numbered(xs, max) && max <= MAX_SPRITESHEETS
    requires WriteCounted(Some(xs), NamedWriter(e), e).Ok? && At(s, p, WriteCounted(Some(xs), NamedWriter(e), e).value)
    requires end == p + |WriteCounted(Some(xs), NamedWriter(e), e).value|
    ensures ReadCounted(s, p, e, NamedReader(e), IdCheck(max, msg)) == Ok((xs, end))
  {
    CountedBytes(Some(xs), NamedWriter(e), e);
    NumberedReadBack(xs, e, max, msg);
    CountedReadBack(s, p, xs, e, NamedReader(e), NamedWriter(e), IdCheck(max, msg), end);
  }

  /** The layer array, as Write lays it out, is read back by the layer loop. */
  lemma LayerArrayReadBack(s: Bytes, p: nat, ls: seq<Layer>, e: Endian, sheets: nat, end: nat)
    requires Drawing(ls, sheets)
    requires WriteCounted(Some(ls), LayerWriter(e), e).Ok? && At(s, p, WriteCounted(Some(ls), LayerWriter(e), e).value)
    requires end == p + |WriteCounted(Some(ls), LayerWriter(e), e).value|
    ensures ReadCounted(s, p, e, LayerReader(e), LayerCheck(sheets)) == Ok((ls, end))
  {
    CountedBytes(Some(ls), LayerWriter(e), e);
    DrawingReadBack(ls, e, sheets);
    CountedReadBack(s, p, ls, e, LayerReader(e), LayerWriter(e), LayerCheck(sheets), end);
  }

  /** The four arrays of valid content, laid out by Content.Write, are read back. */
  lemma TablesReadBack(s: Bytes, p: nat, c: Content, e: Endian, q1: nat, q2: nat, q3: nat, end: nat)
    requires Valid(c) && TablesBytes(c, e).Ok? && At(s, p, TablesBytes(c, e).value)
    requires q1 == p + |WriteCounted(c.spritesheets, NamedWriter(e), e).value|
    requires q2 == q1 + |WriteCounted(c.layers, LayerWriter(e), e).value|
    requires q3 == q2 + |WriteCounted(c.nulls, NamedWriter(e), e).value|
    requires end == q3 + |WriteCounted(c.events, NamedWriter(e), e).value|
    ensures TablesAt(s, p, e) == Ok((Tables(c.spritesheets.value, c.layers.value, c.nulls.value, c.events.value), end))
  {
    var sheets := WriteCounted(c.spritesheets, NamedWriter(e), e).value;
    var layers := WriteCounted(c.layers, LayerWriter(e), e).value;
    var nulls := WriteCounted(c.nulls, NamedWriter(e), e).value;
    var events := WriteCounted(c.events, NamedWriter(e), e).value;
    assert TablesBytes(c, e).value == sheets + layers + nulls + events;
    AtSplit4(s, p, sheets, layers, nulls, events);
    NamedArrayReadBack(s, p, c.spritesheets.value, e, MAX_SPRITESHEETS, INVALID_SPRITESHEET, q1);
    LayerArrayReadBack(s, q1, c.layers.value, e, |c.spritesheets.value|, q2);
    NamedArrayReadBack(s, q2, c.nulls.value, e, MAX_NULLS, INVALID_NULL, q3);
    NamedArrayReadBack(s, q3, c.events.value, e, MAX_EVENTS, INVALID_EVENT, end);
  }

  /** Valid content is always written: every string is present and short enough. */
  lemma ValidWrites(c: Content, e: Endian)
    requires Valid(c)
    ensures ContentBytes(c, e).Ok?
  {
    WriteManyOk(c.spritesheets.value, NamedWriter(e));
    WriteManyOk(c.layers.value, LayerWriter(e));
    WriteManyOk(c.nulls.value, NamedWriter(e));
    WriteManyOk(c.events.value, NamedWriter(e));
  }

  /** The corrected Write's base path is read back, and the tables follow it. */
  lemma BasePathReadBack(s: Bytes, p: nat, c: Content, e: Endian)
    requires Lossless(c.basePath) && ContentBytes(c, e).Ok? && At(s, p, ContentBytes(c, e).value)
    ensures ReadString(s, p, e) == Ok((c.basePath.value, p + 2 + |c.basePath.value|))
    ensures At(s, p + 2 + |c.basePath.value|, TablesBytes(c, e).value)
  {
    AtSplit(s, p, EncodeString(c.basePath.value, e), TablesBytes(c, e).value);
    ReadStringAt(s, p, c.basePath.value, e);
  }

  /** Where the corrected Write's output sits, Read returns the content and the cursor after it. */
  lemma ContentReadBackAt(s: Bytes, p: nat, c: Content, e: Endian, b: nat, end: nat)
    requires Valid(c) && ContentBytes(c, e).Ok? && At(s, p, ContentBytes(c, e).value)
    requires b == p + 2 + |c.basePath.value|
    requires end == p + |ContentBytes(c, e).value|
    ensures ContentAt(s, p, e) == Ok((c, end))
  {
    BasePathReadBack(s, p, c, e);
    var q1 := b + |WriteCounted(c.spritesheets, NamedWriter(e), e).value|;
    var q2 := q1 + |WriteCounted(c.layers, LayerWriter(e), e).value|;
    var q3 := q2 + |WriteCounted(c.nulls, NamedWriter(e), e).value|;
    assert end == b + |TablesBytes(c, e).value| by {
      assert ContentBytes(c, e).value == EncodeString(c.basePath.value, e) + TablesBytes(c, e).value;
      TablesLength(c, e);
    }
    TablesReadBack(s, b, c, e, q1, q2, q3, end);
    ContentFromParts(s, p, c, e, b, end);
  }

  /** Read's base path and tables, met one after the other, make up the content. */
  lemma ContentFromParts(s: Bytes, p: nat, c: Content, e: Endian, b: nat, end: nat)
    requires c.basePath.Some? && c.spritesheets.Some? && c.layers.Some? && c.nulls.Some? && c.events.Some?
    requires ReadString(s, p, e) == Ok((c.basePath.value, b))
    requires TablesAt(s, b, e) == Ok((Tables(c.spritesheets.value, c.layers.value, c.nulls.value, c.events.value), end))
    ensures ContentAt(s, p, e) == Ok((c, end))
  {
  }

  /** The tables are the four counted arrays one after the other. */
  lemma TablesLength(c: Content, e: Endian)
    requires TablesBytes(c, e).Ok?
    ensures |TablesBytes(c, e).value| == |WriteCounted(c.spritesheets, NamedWriter(e), e).value|
      + |WriteCounted(c.layers, LayerWriter(e), e).value| + |WriteCounted(c.nulls, NamedWriter(e), e).value|
      + |WriteCounted(c.events, NamedWriter(e), e).value|
  {
  }

  function ContentReader(e: Endian): Reader<Content>
  {
    (s: Bytes, p: nat) => ContentAt(s, p, e)
  }

  function ContentWriter(e: Endian): Writer<Content>
  {
    (c: Content) => ContentBytes(c, e)
  }

  /**
   * Valid content, the only content Read returns, is written and read back unchanged
   * wherever the corrected Write puts it.
   */
  lemma ContentRoundTrips(c: Content, e: Endian)
    requires Valid(c)
    ensures ContentBytes(c, e).Ok?
    ensures ReadsBack(ContentReader(e), ContentWriter(e), c)
  {
    ValidWrites(c, e);
    forall s: Bytes, p: nat, end: nat | At(s, p, ContentBytes(c, e).value) && end == p + |ContentBytes(c, e).value|
      ensures ContentAt(s, p, e) == Ok((c, end))
    {
      ContentReadBackAt(s, p, c, e, p + 2 + |c.basePath.value|, end);
    }
    ReadsBackFromPlacements(ContentReader(e), ContentWriter(e), c);
  }

  /** The smallest content Read accepts: one spritesheet and one layer drawing on it, all names empty. */
  const SMALLEST: Content := Content(Some([]), Some([Named(0, Some([]))]), Some([Layer(0, 0, Some([]))]), Some([]), Some([]))

  /** The count 1, little-endian. */
  const ONE_LE: Bytes := [1, 0, 0, 0]

  lemma SmallWords()
    ensures EncodeU32N(0, Little) == [0, 0, 0, 0] && EncodeU32N(1, Little) == ONE_LE
    ensures EncodeU16N(0, Little) == [0, 0]
    ensures DecodeU16N([1, 0], Little) == 1 && DecodeU32N([0, 0, 0, 0], Little) == 0
    ensures DecodeU32N([0, 0, 0, 1], Little) == 0x100_0000
  {
  }

  lemma SmallestSheet(sheet: Named)
    requires sheet == Named(0, Some([]))
    ensures NamedBytes(sheet, Little) == Ok(Zeros(6))
  {
    SmallWords();
    assert EncodeU32N(0, Little) + EncodeString([], Little) == Zeros(6);
  }

  lemma SmallestLayer(layer: Layer)
    requires layer == Layer(0, 0, Some([]))
    ensures LayerBytes(layer, Little) == Ok(Zeros(10))
  {
    SmallWords();
    assert EncodeU32N(0, Little) + EncodeU32N(0, Little) + EncodeString([], Little) == Zeros(10);
  }

  /** The smallest content's arrays, each as Content.Write lays it out. */
  lemma SmallestArrays(sheet: Named, layer: Layer)
    requires sheet == Named(0, Some([])) && layer == Layer(0, 0, Some([]))
    ensures WriteCounted(Some([sheet]), NamedWriter(Little), Little) == Ok(ONE_LE + Zeros(6))
    ensures WriteCounted(Some([layer]), LayerWriter(Little), Little) == Ok(ONE_LE + Zeros(10))
    ensures WriteCounted(Some([]), NamedWriter(Little), Little) == Ok(Zeros(4))
  {
    SmallWords();
    SmallestSheet(sheet);
    SmallestLayer(layer);
    WriteCountedOne(sheet, NamedWriter(Little), Little);
    WriteCountedOne(layer, LayerWriter(Little), Little);
    WriteCountedEmpty(NamedWriter(Little), Little);
    assert EncodeCount(0, Little) == Zeros(4);
  }

  /** The smallest content is valid, and Content.Write writes its tables as 32 bytes: two counts of 1, the rest zeros. */
  lemma SmallestTables(c: Content)
    requires c == SMALLEST
    ensures Valid(c)
    ensures TablesBytes(c, Little) == Ok(ONE_LE + Zeros(6) + ONE_LE + Zeros(18))
  {
    var sheet, layer := c.spritesheets.value[0], c.layers.value[0];
    assert c.spritesheets == Some([sheet]) && c.layers == Some([layer]);
    SmallestArrays(sheet, layer);
    var z := Zeros(4);
    assert Zeros(10) + z + z == Zeros(18);
    assert (ONE_LE + Zeros(6)) + (ONE_LE + Zeros(10)) + z + z == ONE_LE + Zeros(6) + ONE_LE + (Zeros(10) + z + z);
  }

  /** The smallest content's tables, cut where Read's first steps cut them. */
  lemma MisreadPieces()
    ensures ONE_LE + Zeros(6) + ONE_LE + Zeros(18)
         == [1, 0] + [0] + [0, 0, 0, 0] + [0, 0, 0, 1] + Zeros(10) + Zeros(11)
  {
    var w := ONE_LE + Zeros(6) + ONE_LE + Zeros(18);
    var v := [1, 0] + [0] + [0, 0, 0, 0] + [0, 0, 0, 1] + Zeros(10) + Zeros(11);
    assert forall i | 0 <= i < 32 :: w[i] == (if i == 0 || i == 10 then 1 else 0) == v[i];
  }

  /** Read's first steps over those bytes, wherever they sit: an empty base path, no spritesheets, 2^24 layers. */
  lemma SmallestMisread(s: Bytes, p: nat)
    requires At(s, p, ONE_LE + Zeros(6) + ONE_LE + Zeros(18))
    ensures ReadString(s, p, Little) == Ok(([], p + 3))
    ensures ReadU32N(s, p + 3, Little) == Ok((0, p + 7))
    ensures ReadU32N(s, p + 7, Little) == Ok((0x100_0000, p + 11))
    ensures LayerAt(s, p + 11, Little) == Ok((Layer(0, 0, Some([])), p + 21))
  {
    SmallWords();
    MisreadPieces();
    var a, b, z := [1, 0], [0], [0, 0, 0, 0];
    var c, l := [0, 0, 0, 1], Zeros(10);
    AtSplit(s, p, a + b + z + c + l, Zeros(11));
    AtSplit(s, p, a + b + z + c, l);
    AtSplit4(s, p, a, b, z, c);
    ReadBytesAt(s, p, a);
    ReadBytesAt(s, p + 2, b);
    assert BeforeNul(b) == [];
    ReadU32NAt(s, p + 3, 0, Little);
    ReadBytesAt(s, p + 7, c);
    SmallestLayer(Layer(0, 0, Some([])));
    LayerReadsBack(s, p + 11, Layer(0, 0, Some([])), Little);
  }

  /**
   * What Content.Write emits is not read back: for the smallest valid content,
   * wherever its bytes sit, Read takes the leading spritesheet count as a one-byte base
   * path (a NUL, so an empty one), then finds no spritesheets and 2^24 layers, the first
   * of which names spritesheet 0.
   */
  lemma WrittenAsSourceNotReadBack(c: Content, s: Bytes, p: nat)
    requires c == SMALLEST && TablesBytes(c, Little).Ok? && At(s, p, TablesBytes(c, Little).value)
    ensures Valid(c)
    ensures ContentAt(s, p, Little) == Err(Format(INVALID_SPRITESHEET))
  {
    SmallestTables(c);
    SmallestMisread(s, p);
    assert ReadMany(s, p + 7, 0, 0, NamedReader(Little), IdCheck(MAX_SPRITESHEETS, INVALID_SPRITESHEET)) == Ok(([], p + 7));
    assert ReadMany(s, p + 11, 0, 0x100_0000, LayerReader(Little), LayerCheck(0)) == Err(Format(INVALID_SPRITESHEET));
  }

}
