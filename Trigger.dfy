/** Animation.Trigger: an event id and the frame it fires at, two u32 words. */
module TriggerCodec {
  import opened Wrappers
  import opened ByteIO
  import opened Records

  datatype Trigger = Trigger(eventId: bv32, atFrame: bv32)

  const TRIGGER_SIZE: nat := 8

  /** Trigger.Read: EventId, then AtFrame. */
  function ReadTrigger(s: Bytes, pos: nat, e: Endian): (r: Result<(Trigger, nat)>)
    ensures r.Ok? <==> pos + TRIGGER_SIZE <= |s|
    ensures r.Ok? ==> r.value.1 == pos + TRIGGER_SIZE
    ensures r.Err? ==> r.error == EndOfStream
  {
    var eventId :- ReadU32(s, pos, e);
    var atFrame :- ReadU32(s, eventId.1, e);
    Ok((Trigger(eventId.0, atFrame.0), atFrame.1))
  }

  /** Trigger.Write: EventId, then AtFrame. */
  function WriteTrigger(t: Trigger, e: Endian): (r: Bytes)
    ensures |r| == TRIGGER_SIZE
  {
    EncodeU32(t.eventId, e) + EncodeU32(t.atFrame, e)
  }

  /** What Write emits, Read reads back. */
  lemma TriggerReadsBack(s: Bytes, p: nat, t: Trigger, e: Endian)
    requires At(s, p, WriteTrigger(t, e))
    ensures ReadTrigger(s, p, e) == Ok((t, p + TRIGGER_SIZE))
  {
    AtSplit(s, p, EncodeU32(t.eventId, e), EncodeU32(t.atFrame, e));
    ReadU32At(s, p, t.eventId, e);
    ReadU32At(s, p + 4, t.atFrame, e);
  }

  /** And the other way: the eight bytes Read consumed are what Write emits for the trigger read. */
  lemma TriggerWritesBack(s: Bytes, p: nat, e: Endian)
    requires ReadTrigger(s, p, e).Ok?
    ensures WriteTrigger(ReadTrigger(s, p, e).value.0, e) == s[p..p + TRIGGER_SIZE]
  {
    var t := ReadTrigger(s, p, e).value.0;
    EncodeDecodeU32(s[p..p + 4], e);
    EncodeDecodeU32(s[p + 4..p + 8], e);
    assert s[p..p + TRIGGER_SIZE] == s[p..p + 4] + s[p + 4..p + 8];
  }

  function TriggerReader(e: Endian): Reader<Trigger>
  {
    (s: Bytes, p: nat) => ReadTrigger(s, p, e)
  }

  function TriggerWriter(e: Endian): Writer<Trigger>
  {
    (t: Trigger) => Ok(WriteTrigger(t, e))
  }

  /** Every trigger reads back, wherever it is written. */
  lemma TriggerRoundTrips(t: Trigger, e: Endian)
    ensures ReadsBack(TriggerReader(e), TriggerWriter(e), t)
  {
    forall s: Bytes, p: nat | At(s, p, WriteTrigger(t, e))
      ensures ReadTrigger(s, p, e) == Ok((t, p + TRIGGER_SIZE))
    {
      TriggerReadsBack(s, p, t, e);
    }
  }

  /** Any array of triggers reads back, with no check on them. */
  lemma TriggersRoundTrip(triggers: seq<Trigger>, e: Endian)
    ensures AllReadBack(TriggerReader(e), TriggerWriter(e), NoCheck(), 0, triggers)
  {
    forall k | 0 <= k < |triggers|
      ensures ReadsBack(TriggerReader(e), TriggerWriter(e), triggers[k])
    {
      TriggerRoundTrips(triggers[k], e);
    }
    AllReadBackOf(TriggerReader(e), TriggerWriter(e), NoCheck(), 0, triggers);
  }

  /** Writing triggers never fails: each is eight bytes. */
  lemma TriggersWrite(triggers: seq<Trigger>, e: Endian)
    ensures WriteMany(triggers, TriggerWriter(e)).Ok?
    ensures |WriteMany(triggers, TriggerWriter(e)).value| == TRIGGER_SIZE * |triggers|
  {
    WriteManyOk(triggers, TriggerWriter(e));
    TriggersLength(triggers, e);
  }

  lemma {:induction false} TriggersLength(triggers: seq<Trigger>, e: Endian)
    requires WriteMany(triggers, TriggerWriter(e)).Ok?
    ensures |WriteMany(triggers, TriggerWriter(e)).value| == TRIGGER_SIZE * |triggers|
    decreases |triggers|
  {
    if triggers != [] {
      WriteManyOk(triggers[1..], TriggerWriter(e));
      TriggersLength(triggers[1..], e);
    }
  }
}
