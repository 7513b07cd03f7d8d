/**
 * AnimationCacheBinaryFile: a dictionary from u32 name hashes to animated actors,
 * stored little-endian as an S32 count followed by (u32 key, actor) pairs.
 *
 * The dictionary is an insertion-ordered sequence of pairs: entries are only ever
 * added, and enumeration visits them in the order they were added.
 *
 * Serialize writes each actor with AnimatedActor.Write, whose content lacks the base
 * path (SourceCacheBytes, which SourceCacheNotReadBack shows is not read back).
 * CacheBytes is the corrected writer, each actor written base path first, and
 * CacheRoundTrips is proved for it.
 */
module AnimationCache {
  import opened Wrappers
  import opened ByteIO
  import opened Arith
  import opened Records
  import ActorCodec
  import ContentCodec
  import AnimationCodec
  import RebirthArchive

  type Actor<L> = ActorCodec.Actor<L>

  /** One dictionary entry: the name hash and its actor. */
  type Entry<L> = (u32, Actor<L>)

  function KeysOf<L>(entries: seq<Entry<L>>): set<u32>
  {
    set k | 0 <= k < |entries| :: entries[k].0
  }

  /** No key occurs twice, as in a Dictionary. */
  predicate DistinctKeys<L>(entries: seq<Entry<L>>)
  {
    forall i, j | 0 <= i < j < |entries| :: entries[i].0 != entries[j].0
  }

  /** A key not yet present keeps the keys distinct once it is added. */
  lemma AddKeepsDistinct<L>(entries: seq<Entry<L>>, x: Entry<L>)
    requires DistinctKeys(entries) && x.0 !in KeysOf(entries)
    ensures DistinctKeys(entries + [x])
  {
    forall i, j | 0 <= i < j < |entries + [x]|
      ensures (entries + [x])[i].0 != (entries + [x])[j].0
    {
      if j == |entries| {
        assert entries[i].0 in KeysOf(entries);
      }
    }
  }

  // ---------------------------------------------------------------------------
  // One entry

  /** Deserialize's loop body: the key, then AnimatedActor.Read. */
  function EntryAt<L>(s: Bytes, pos: nat, layer: Reader<L>): (r: Result<(Entry<L>, nat)>)
  {
    var key :- ReadU32N(s, pos, Little);
    var actor :- ActorCodec.ActorAt(s, key.1, Little, layer);
    Ok(((key.0, actor.0), actor.1))
  }

  /** The corrected loop body: the key, then the corrected actor writer. */
  function EntryBytes<L>(x: Entry<L>, write: Writer<L>): (r: Result<Bytes>)
    ensures r.Ok? <==> ActorCodec.ActorBytes(x.1, Little, write).Ok?
  {
    var actor :- ActorCodec.ActorBytes(x.1, Little, write);
    Ok(EncodeU32N(x.0, Little) + actor)
  }

  function EntryReader<L>(layer: Reader<L>): Reader<Entry<L>>
  {
    (s: Bytes, p: nat) => EntryAt(s, p, layer)
  }

  function EntryWriter<L>(write: Writer<L>): Writer<Entry<L>>
  {
    (x: Entry<L>) => EntryBytes(x, write)
  }

  // ---------------------------------------------------------------------------
  // Serialize and Deserialize as functions

  /** The corrected Serialize: the S32 count, then each key and actor in dictionary order. */
  function CacheBytes<L>(entries: seq<Entry<L>>, write: Writer<L>): (r: Result<Bytes>)
    ensures r.Ok? <==> forall k :: 0 <= k < |entries| ==> ActorCodec.ActorBytes(entries[k].1, Little, write).Ok?
  {
    WriteManyOk(entries, EntryWriter(write));
    WriteCounted(Some(entries), EntryWriter(write), Little)
  }

  /** Serialize's loop body as written: the key, then AnimatedActor.Write as written. */
  function SourceEntryBytes<L>(x: Entry<L>, write: Writer<L>): (r: Result<Bytes>)
    ensures r.Ok? <==> ActorCodec.SourceActorBytes(x.1, Little, write).Ok?
  {
    var actor :- ActorCodec.SourceActorBytes(x.1, Little, write);
    Ok(EncodeU32N(x.0, Little) + actor)
  }

  function SourceEntryWriter<L>(write: Writer<L>): Writer<Entry<L>>
  {
    (x: Entry<L>) => SourceEntryBytes(x, write)
  }

  /**
   * Serialize as written: the S32 count, then each key and actor, the actor
   * written by AnimatedActor.Write without its content's base path.
   */
  function SourceCacheBytes<L>(entries: seq<Entry<L>>, write: Writer<L>): (r: Result<Bytes>)
    ensures r.Ok? <==> forall k :: 0 <= k < |entries| ==> ActorCodec.SourceActorBytes(entries[k].1, Little, write).Ok?
  {
    WriteManyOk(entries, SourceEntryWriter(write));
    WriteCounted(Some(entries), SourceEntryWriter(write), Little)
  }

  /** The entries a Deserialize left in the dictionary, and its outcome: the cursor after the last entry, or the exception. */
  datatype Loaded<L> = Loaded(entries: seq<Entry<L>>, outcome: Result<nat>)

  /**
   * Deserialize's loop from entry i of n: each entry read and added to `entries`; a
   * failed read or a key already present stops it, the entries added so far kept.
   */
  function LoadFrom<L>(s: Bytes, pos: nat, i: nat, n: nat, entries: seq<Entry<L>>, read: Reader<Entry<L>>): (r: Loaded<L>)
    ensures |entries| <= |r.entries| && r.entries[..|entries|] == entries
    ensures DistinctKeys(entries) ==> DistinctKeys(r.entries)
    decreases n - i
  {
    if i >= n then Loaded(entries, Ok(pos))
    else
      match read(s, pos)
      case Err(err) => Loaded(entries, Err(err))
      case Ok((x, next)) =>
        if x.0 in KeysOf(entries) then Loaded(entries, Err(DuplicateKey))
        else
          assert DistinctKeys(entries) ==> DistinctKeys(entries + [x]) by {
            if DistinctKeys(entries) { AddKeepsDistinct(entries, x); }
          }
          var r := LoadFrom(s, next, i + 1, n, entries + [x], read);
          assert (entries + [x])[..|entries|] == entries;
          assert r.entries[..|entries|] == r.entries[..|entries + [x]|][..|entries|];
          r
  }

  /**
   * Deserialize: the u32 count, then the dictionary cleared and refilled. A count
   * that cannot be read leaves the dictionary as it was.
   */
  function Deserialized<L>(s: Bytes, pos: nat, before: seq<Entry<L>>, read: Reader<Entry<L>>): (r: Loaded<L>)
    ensures ReadU32N(s, pos, Little).Err? ==> r == Loaded(before, Err(ReadU32N(s, pos, Little).error))
    ensures ReadU32N(s, pos, Little).Ok? ==> DistinctKeys(r.entries)
  {
    match ReadU32N(s, pos, Little)
    case Err(err) => Loaded(before, Err(err))
    case Ok((n, p)) => LoadFrom(s, p, 0, n, [], read)
  }

  // ---------------------------------------------------------------------------
  // The file object

  class AnimationCacheFile<L> {
    /** _AnimatedActors, in insertion order. */
    var actors: seq<Entry<L>>

    predicate Valid()
      reads this
    {
      DistinctKeys(actors)
    }

    constructor()
      ensures actors == [] && Valid()
    {
      actors := [];
    }

    /** Dictionary.Add: a key already present is an ArgumentException, and nothing changes. */
    method Add(key: u32, actor: Actor<L>) returns (r: Result<()>)
      requires Valid()
      modifies this
      ensures Valid()
      ensures key in KeysOf(old(actors)) ==> r == Err(DuplicateKey) && actors == old(actors)
      ensures key !in KeysOf(old(actors)) ==> r == Ok(()) && actors == old(actors) + [(key, actor)]
    {
      if key in KeysOf(actors) {
        return Err(DuplicateKey);
      }
      AddKeepsDistinct(actors, (key, actor));
      actors := actors + [(key, actor)];
      r := Ok(());
    }

    /** Serialize, with its `foreach` over the dictionary, each actor through AnimatedActor.Write. */
    method Serialize(write: Writer<L>) returns (r: Result<Bytes>)
      ensures r == SourceCacheBytes(actors, write)
    {
      var body := WriteArray(actors, SourceEntryWriter(write));
      if body.Err? {
        return Err(body.error);
      }
      r := Ok(EncodeCount(|actors|, Little) + body.value);
    }

    /** Deserialize, with its loop of reads and Adds. */
    method Deserialize(s: Bytes, pos: nat, layer: Reader<L>) returns (r: Result<nat>)
      requires Valid()
      modifies this
      ensures Valid()
      ensures Loaded(actors, r) == Deserialized(s, pos, old(actors), EntryReader(layer))
    {
      var count := ReadU32N(s, pos, Little);
      if count.Err? {
        return Err(count.error);
      }
      var n := count.value.0;
      actors := [];
      var p := count.value.1;
      var i := 0;
      while i < n
        invariant i <= n && Valid()
        invariant LoadFrom(s, p, i, n, actors, EntryReader(layer)) == Deserialized(s, pos, old(actors), EntryReader(layer))
        decreases n - i
      {
        var key := ReadU32N(s, p, Little);
        if key.Err? {
          return Err(key.error);
        }
        var actor := ActorCodec.ReadActor(s, key.value.1, Little, layer);
        if actor.Err? {
          return Err(actor.error);
        }
        var added := Add(key.value.0, actor.value.0);
        if added.Err? {
          return Err(added.error);
        }
        p := actor.value.1;
        i := i + 1;
      }
      r := Ok(p);
    }
  }

  // ---------------------------------------------------------------------------
  // Reading back what Serialize writes

  /** Every actor of the dictionary can be written and read back, its layers included. */
  ghost predicate AllAccepted<L>(entries: seq<Entry<L>>, layer: Reader<L>, write: Writer<L>)
  {
    forall k :: 0 <= k < |entries| ==>
      ActorCodec.Accepted(entries[k].1) && ActorCodec.LayersReadBack(entries[k].1, layer, write)
  }

  /** An entry is read back wherever its key and actor are written. */
  lemma EntryReadsBackAt<L>(s: Bytes, p: nat, x: Entry<L>, layer: Reader<L>, write: Writer<L>, end: nat)
    requires ActorCodec.Accepted(x.1) && ActorCodec.LayersReadBack(x.1, layer, write)
    requires EntryBytes(x, write).Ok? && At(s, p, EntryBytes(x, write).value)
    requires end == p + |EntryBytes(x, write).value|
    ensures EntryAt(s, p, layer) == Ok((x, end))
  {
    var actor := ActorCodec.ActorBytes(x.1, Little, write).value;
    assert EntryBytes(x, write).value == EncodeU32N(x.0, Little) + actor;
    AtSplit(s, p, EncodeU32N(x.0, Little), actor);
    ReadU32NAt(s, p, x.0, Little);
    var q := p + 4 + |ContentCodec.ContentBytes(x.1.content, Little).value|;
    ActorCodec.ReadsBackAt(s, p + 4, x.1, Little, layer, write, q, q + 2 + |x.1.defaultAnimation.value|, end);
    EntryFromParts(s, p, x, layer, end);
  }

  /** EntryAt is the key followed by the actor. */
  lemma EntryFromParts<L>(s: Bytes, p: nat, x: Entry<L>, layer: Reader<L>, end: nat)
    requires ReadU32N(s, p, Little) == Ok((x.0, p + 4))
    requires ActorCodec.ActorAt(s, p + 4, Little, layer) == Ok((x.1, end))
    ensures EntryAt(s, p, layer) == Ok((x, end))
  {
  }

  lemma EntryRoundTrips<L>(x: Entry<L>, layer: Reader<L>, write: Writer<L>)
    requires ActorCodec.Accepted(x.1) && ActorCodec.LayersReadBack(x.1, layer, write)
    ensures ReadsBack(EntryReader(layer), EntryWriter(write), x)
  {
    if EntryBytes(x, write).Ok? {
      forall s: Bytes, p: nat, end: nat | At(s, p, EntryBytes(x, write).value) && end == p + |EntryBytes(x, write).value|
        ensures EntryAt(s, p, layer) == Ok((x, end))
      {
        EntryReadsBackAt(s, p, x, layer, write, end);
      }
    }
    ReadsBackFromPlacements(EntryReader(layer), EntryWriter(write), x);
  }

  lemma EntriesRoundTrip<L>(entries: seq<Entry<L>>, layer: Reader<L>, write: Writer<L>)
    requires AllAccepted(entries, layer, write)
    ensures AllReadBack(EntryReader(layer), EntryWriter(write), NoCheck(), 0, entries)
  {
    forall k | 0 <= k < |entries|
      ensures ReadsBack(EntryReader(layer), EntryWriter(write), entries[k]) && NoCheck<Entry<L>>()(0 + k, entries[k]).Ok?
    {
      EntryRoundTrips(entries[k], layer, write);
    }
    AllReadBackOf(EntryReader(layer), EntryWriter(write), NoCheck(), 0, entries);
  }

  /** One turn of Deserialize's loop: an entry read whose key is new is added, and the loop goes on behind it. */
  lemma LoadStep<L>(s: Bytes, p: nat, i: nat, n: nat, done: seq<Entry<L>>, read: Reader<Entry<L>>, x: Entry<L>, q: nat)
    requires i < n && read(s, p) == Ok((x, q)) && x.0 !in KeysOf(done)
    ensures LoadFrom(s, p, i, n, done, read) == LoadFrom(s, q, i + 1, n, done + [x], read)
  {
  }

  /** A key read that is already present stops the loop with DuplicateKey, the dictionary as it was. */
  lemma LoadRepeat<L>(s: Bytes, p: nat, i: nat, n: nat, done: seq<Entry<L>>, read: Reader<Entry<L>>, x: Entry<L>, q: nat)
    requires i < n && read(s, p) == Ok((x, q)) && x.0 in KeysOf(done)
    ensures LoadFrom(s, p, i, n, done, read) == Loaded(done, Err(DuplicateKey))
  {
  }

  /** The first of the items has a key the entries before it do not. */
  lemma NewKey<L>(done: seq<Entry<L>>, items: seq<Entry<L>>)
    requires items != [] && DistinctKeys(done + items)
    ensures items[0].0 !in KeysOf(done)
  {
    forall k | 0 <= k < |done|
      ensures done[k].0 != items[0].0
    {
      assert (done + items)[k] == done[k] && (done + items)[|done|] == items[0];
    }
  }

  /**
   * Entries i .. n-1 written one after the other, with keys new to the dictionary and
   * to each other, are all added, and the loop ends just after their bytes.
   */
  lemma {:induction false} LoadWritten<L>(s: Bytes, p: nat, i: nat, n: nat, end: nat, done: seq<Entry<L>>,
                                          items: seq<Entry<L>>, read: Reader<Entry<L>>, write: Writer<Entry<L>>)
    requires DistinctKeys(done + items)
    requires AllReadBack(read, write, NoCheck(), i, items)
    requires WriteMany(items, write).Ok? && At(s, p, WriteMany(items, write).value)
    requires n == i + |items| && end == p + |WriteMany(items, write).value|
    ensures LoadFrom(s, p, i, n, done, read) == Loaded(done + items, Ok(end))
    decreases |items|
  {
    if items == [] {
      assert done + items == done;
    } else {
      var x := items[0];
      var head := write(x).value;
      var tail := WriteMany(items[1..], write).value;
      assert WriteMany(items, write).value == head + tail;
      AtSplit(s, p, head, tail);
      ReadBackAt(s, p, x, read, write);
      assert done + items == (done + [x]) + items[1..];
      NewKey(done, items);
      LoadStep(s, p, i, n, done, read, x, p + |head|);
      LoadWritten(s, p + |head|, i + 1, n, end, done + [x], items[1..], read, write);
    }
  }

  /**
   * Entries written one after the other, the j-th the first whose key is already
   * present, stop the loop at the j-th with DuplicateKey, the j entries before it added.
   */
  lemma {:induction false} LoadRepeated<L>(s: Bytes, p: nat, i: nat, n: nat, done: seq<Entry<L>>,
                                           items: seq<Entry<L>>, j: nat, read: Reader<Entry<L>>, write: Writer<Entry<L>>)
    requires j < |items| && DistinctKeys(done + items[..j]) && items[j].0 in KeysOf(done + items[..j])
    requires AllReadBack(read, write, NoCheck(), i, items)
    requires WriteMany(items, write).Ok? && At(s, p, WriteMany(items, write).value)
    requires n == i + |items|
    ensures LoadFrom(s, p, i, n, done, read) == Loaded(done + items[..j], Err(DuplicateKey))
    decreases j
  {
    var x := items[0];
    var head := write(x).value;
    var tail := WriteMany(items[1..], write).value;
    assert WriteMany(items, write).value == head + tail;
    AtSplit(s, p, head, tail);
    ReadBackAt(s, p, x, read, write);
    if j == 0 {
      assert done + items[..0] == done;
      LoadRepeat(s, p, i, n, done, read, x, p + |head|);
    } else {
      assert done + items[..j] == (done + [x]) + items[1..][..j - 1];
      NewKey(done, items[..j]);
      LoadStep(s, p, i, n, done, read, x, p + |head|);
      LoadRepeated(s, p + |head|, i + 1, n, done + [x], items[1..], j - 1, read, write);
    }
  }

  /** The counted form of LoadWritten: Deserialize reads back a counted run of entries with distinct keys. */
  lemma LoadCounted<L>(s: Bytes, p: nat, entries: seq<Entry<L>>, before: seq<Entry<L>>,
                       read: Reader<Entry<L>>, write: Writer<Entry<L>>, end: nat)
    requires DistinctKeys(entries) && |entries| < TWO_32 && AllReadBack(read, write, NoCheck(), 0, entries)
    requires WriteCounted(Some(entries), write, Little).Ok? && At(s, p, WriteCounted(Some(entries), write, Little).value)
    requires end == p + |WriteCounted(Some(entries), write, Little).value|
    ensures Deserialized(s, p, before, read) == Loaded(entries, Ok(end))
  {
    var body := WriteMany(entries, write).value;
    CountedBytes(Some(entries), write, Little);
    AtSplit(s, p, EncodeCount(|entries|, Little), body);
    ReadCountAt(s, p, |entries|, Little);
    assert [] + entries == entries;
    LoadWritten(s, p + 4, 0, |entries|, end, [], entries, read, write);
  }

  /** The counted form of LoadRepeated. */
  lemma LoadCountedRepeat<L>(s: Bytes, p: nat, entries: seq<Entry<L>>, j: nat, before: seq<Entry<L>>,
                             read: Reader<Entry<L>>, write: Writer<Entry<L>>)
    requires j < |entries| && DistinctKeys(entries[..j]) && entries[j].0 in KeysOf(entries[..j])
    requires |entries| < TWO_32 && AllReadBack(read, write, NoCheck(), 0, entries)
    requires WriteCounted(Some(entries), write, Little).Ok? && At(s, p, WriteCounted(Some(entries), write, Little).value)
    ensures Deserialized(s, p, before, read) == Loaded(entries[..j], Err(DuplicateKey))
  {
    var body := WriteMany(entries, write).value;
    CountedBytes(Some(entries), write, Little);
    AtSplit(s, p, EncodeCount(|entries|, Little), body);
    ReadCountAt(s, p, |entries|, Little);
    assert [] + entries[..j] == entries[..j];
    LoadRepeated(s, p + 4, 0, |entries|, [], entries, j, read, write);
  }

  /**
   * What Serialize writes for a dictionary of actors that read back, Deserialize reads
   * back into the same dictionary, whatever it held before.
   */
  lemma CacheRoundTrips<L>(s: Bytes, p: nat, entries: seq<Entry<L>>, before: seq<Entry<L>>, layer: Reader<L>, write: Writer<L>)
    requires DistinctKeys(entries) && |entries| < TWO_32 && AllAccepted(entries, layer, write)
    requires CacheBytes(entries, write).Ok? && At(s, p, CacheBytes(entries, write).value)
    ensures Deserialized(s, p, before, EntryReader(layer)) == Loaded(entries, Ok(p + |CacheBytes(entries, write).value|))
  {
    var w := CacheBytes(entries, write).value;
    assert WriteCounted(Some(entries), EntryWriter(write), Little) == Ok(w);
    EntriesRoundTrip(entries, layer, write);
    LoadCounted(s, p, entries, before, EntryReader(layer), EntryWriter(write), p + |w|);
  }

  /**
   * Bytes laid out like Serialize's but with a repeated key make Deserialize throw at
   * the first repeat, leaving the entries before it in the dictionary.
   */
  lemma RepeatedKeyRejected<L>(s: Bytes, p: nat, entries: seq<Entry<L>>, j: nat, before: seq<Entry<L>>,
                               layer: Reader<L>, write: Writer<L>)
    requires j < |entries| && DistinctKeys(entries[..j]) && entries[j].0 in KeysOf(entries[..j])
    requires |entries| < TWO_32 && AllAccepted(entries, layer, write)
    requires CacheBytes(entries, write).Ok? && At(s, p, CacheBytes(entries, write).value)
    ensures Deserialized(s, p, before, EntryReader(layer)) == Loaded(entries[..j], Err(DuplicateKey))
  {
    EntriesRoundTrip(entries, layer, write);
    LoadCountedRepeat(s, p, entries, j, before, EntryReader(layer), EntryWriter(write));
  }

  /**
   * What Serialize writes is not read back: for a dictionary holding only
   * the smallest actor, Deserialize reads the count and the key, then fails on the
   * actor's content and leaves the dictionary empty; the corrected Serialize's bytes
   * for the same dictionary read back (CacheRoundTrips applies to it).
   */
  lemma SourceCacheNotReadBack<L>(key: u32, before: seq<Entry<L>>, layer: Reader<L>, write: Writer<L>)
    ensures SourceCacheBytes([(key, ActorCodec.Smallest<L>())], write).Ok?
    ensures Deserialized(SourceCacheBytes([(key, ActorCodec.Smallest<L>())], write).value, 0, before, EntryReader(layer))
         == Loaded([], Err(Format(ContentCodec.INVALID_SPRITESHEET)))
    ensures AllAccepted([(key, ActorCodec.Smallest<L>())], layer, write)
  {
    var a := ActorCodec.Smallest<L>();
    var x := (key, a);
    ContentCodec.SmallestTables(a.content);
    WriteCountedEmpty(AnimationCodec.AnimationWriter(Little, write), Little);
    assert ActorCodec.SourceActorBytes(a, Little, write).Ok?;
    var actor := ActorCodec.SourceActorBytes(a, Little, write).value;
    WriteCountedOne(x, SourceEntryWriter(write), Little);
    var w := SourceCacheBytes([x], write).value;
    assert w == EncodeCount(1, Little) + (EncodeU32N(key, Little) + actor);
    AtSlice(w, 0, w);
    AtSplit(w, 0, EncodeCount(1, Little), EncodeU32N(key, Little) + actor);
    AtSplit(w, 4, EncodeU32N(key, Little), actor);
    ReadCountAt(w, 0, 1, Little);
    ReadU32NAt(w, 4, key, Little);
    ActorCodec.SourceActorNotReadBack(w, 8, layer, write);
    assert EntryAt(w, 4, layer) == Err(Format(ContentCodec.INVALID_SPRITESHEET));
  }

  // ---------------------------------------------------------------------------
  // ComputeNameHash

  /**
   * ComputeNameHash: djb2 from 5381 over the path's code units truncated to bytes,
   * with no lower-casing; a null path is ArgumentNull.
   */
  method ComputeNameHash(path: Option<Text>) returns (r: Result<bv32>)
    ensures path.None? ==> r == Err(ArgumentNull)
    ensures path.Some? ==> r == Ok(RebirthArchive.HashA(path.value))
  {
    if path.None? {
      return Err(ArgumentNull);
    }
    var p := path.value;
    var hash: bv32 := 5381;
    var i := 0;
    while i < |p|
      invariant i <= |p| && hash == RebirthArchive.HashA(p[..i])
    {
      assert p[..i + 1][..i] == p[..i];
      hash := RebirthArchive.StepA(hash, RebirthArchive.LowByte(p[i]));
      i := i + 1;
    }
    assert p[..|p|] == p;
    r := Ok(hash);
  }

  /** On a lower-case path the cache's name hash is the low half of the archive's name hash. */
  lemma LowerPathHashesAlike(p: Text)
    requires RebirthArchive.Lower(p) == p
    ensures RebirthArchive.ComputeNameHash(Some(p)).value & 0xFFFF_FFFF == RebirthArchive.HashA(p) as bv64
  {
  }

  /** Unlike the archive's, the cache's hash sees letter case: "A" and "a" hash apart. */
  lemma HashSeesCase(upper: Text, lower: Text)
    requires upper == [0x41] && lower == [0x61]
    ensures RebirthArchive.HashA(upper) != RebirthArchive.HashA(lower)
    ensures RebirthArchive.Lower(upper) == lower
  {
    assert upper[..0] == [] && lower[..0] == [];
  }
}
