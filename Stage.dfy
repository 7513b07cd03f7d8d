/**
 * The Afterbirth stage file (StageBinaryFile): the signature "STB1", an S32 room count,
 * then the rooms, all little-endian. A room is its identifiers, difficulty, name,
 * weight and shape, a u8 door count and a u16 spawn count, the doors, then the spawns,
 * each spawn with a u8 count of entities after its position. The f32 weights are kept
 * as their 32-bit patterns and the signed coordinates as their 16-bit patterns.
 */
module StageBinary {
  import opened Wrappers
  import opened ByteIO
  import opened Arith
  import opened Records
  import opened StreamHelpers

  /** "STB1" read as a little-endian u32. */
  const SIGNATURE: bv32 := 0x3142_5453

  const MAX_DOORS: nat := 0xFF
  const MAX_SPAWNS: nat := 0xFFFF
  const MAX_ENTITIES: nat := 0xFF

  /** An entity of a spawn: its Type, Variant and Subtype, and the bits of its f32 Weight. */
  datatype Entity = Entity(kind: u16, variant: u16, subtype: u16, weight: bv32)

  /** A door: its signed X and Y, and Exists. */
  datatype Door = Door(x: bv16, y: bv16, present: bool)

  /** A spawn point: its signed X and Y and its entities; the array may be null. */
  datatype Spawn = Spawn(x: bv16, y: bv16, entities: Option<seq<Entity>>)

  /** A room, with the Type field as `kind`; the name and both arrays may be null. */
  datatype Room = Room(kind: u32, variant: u32, subtype: u32, difficulty: bv8, name: Option<Text>,
                       weight: bv32, width: bv8, height: bv8, shape: bv8,
                       doors: Option<seq<Door>>, spawns: Option<seq<Spawn>>)

  // ---------------------------------------------------------------------------
  // Entities and doors: fixed-size records

  function EntityAt(s: Bytes, pos: nat): (r: Result<(Entity, nat)>)
    ensures r.Ok? <==> pos + 10 <= |s|
    ensures r.Ok? ==> r.value.1 == pos + 10
  {
    var kind :- ReadU16N(s, pos, Little);
    var variant :- ReadU16N(s, kind.1, Little);
    var subtype :- ReadU16N(s, variant.1, Little);
    var weight :- ReadU32(s, subtype.1, Little);
    Ok((Entity(kind.0, variant.0, subtype.0, weight.0), weight.1))
  }

  function EntityBytes(x: Entity): (r: Bytes)
    ensures |r| == 10
  {
    EncodeU16N(x.kind, Little) + EncodeU16N(x.variant, Little) + EncodeU16N(x.subtype, Little) + EncodeU32(x.weight, Little)
  }

  function EntityReader(): Reader<Entity>
  {
    (s: Bytes, p: nat) => EntityAt(s, p)
  }

  function EntityWriter(): Writer<Entity>
  {
    (x: Entity) => Ok(EntityBytes(x))
  }

  function DoorAt(s: Bytes, pos: nat): (r: Result<(Door, nat)>)
    ensures r.Ok? <==> pos + 5 <= |s|
    ensures r.Ok? ==> r.value.1 == pos + 5
  {
    var x :- ReadU16(s, pos, Little);
    var y :- ReadU16(s, x.1, Little);
    var present :- ReadBool(s, y.1);
    Ok((Door(x.0, y.0, present.0), present.1))
  }

  function DoorBytes(d: Door): (r: Bytes)
    ensures |r| == 5
  {
    EncodeU16(d.x, Little) + EncodeU16(d.y, Little) + EncodeBool(d.present)
  }

  function DoorReader(): Reader<Door>
  {
    (s: Bytes, p: nat) => DoorAt(s, p)
  }

  function DoorWriter(): Writer<Door>
  {
    (d: Door) => Ok(DoorBytes(d))
  }

  // ---------------------------------------------------------------------------
  // Spawns

  /** A spawn as Deserialize leaves it: a real entity array that a u8 count can describe. */
  predicate FilledSpawn(sp: Spawn)
  {
    sp.entities.Some? && |sp.entities.value| <= MAX_ENTITIES
  }

  function SpawnAt(s: Bytes, pos: nat): (r: Result<(Spawn, nat)>)
    ensures r.Ok? ==> FilledSpawn(r.value.0)
  {
    var x :- ReadU16(s, pos, Little);
    var y :- ReadU16(s, x.1, Little);
    var count :- ReadU8(s, y.1);
    var entities :- ReadMany(s, count.1, 0, count.0 as nat, EntityReader(), NoCheck());
    Ok((Spawn(x.0, y.0, Some(entities.0)), entities.1))
  }

  /** A spawn's position, its entity count as a u8, then its entities; more than 255 is InvalidOperation. */
  function SpawnBytes(sp: Spawn): (r: Result<Bytes>)
    ensures r.Ok? <==> |ItemsOf(sp.entities)| <= MAX_ENTITIES
    ensures r.Err? ==> r.error == InvalidOperation
  {
    var entities := ItemsOf(sp.entities);
    if |entities| > MAX_ENTITIES then Err(InvalidOperation)
    else
      WriteManyOk(entities, EntityWriter());
      var body := WriteMany(entities, EntityWriter()).value;
      Ok(EncodeU16(sp.x, Little) + EncodeU16(sp.y, Little) + [ByteOf(|entities|)] + body)
  }

  function SpawnReader(): Reader<Spawn>
  {
    (s: Bytes, p: nat) => SpawnAt(s, p)
  }

  function SpawnWriter(): Writer<Spawn>
  {
    (sp: Spawn) => SpawnBytes(sp)
  }

  // ---------------------------------------------------------------------------
  // Rooms

  /** A room Serialize accepts: a name WriteString takes, and every count within its field. */
  predicate Writable(room: Room)
  {
    && room.name.Some? && |room.name.value| <= MAX_STRING_LENGTH
    && |ItemsOf(room.doors)| <= MAX_DOORS && |ItemsOf(room.spawns)| <= MAX_SPAWNS
    && forall k :: 0 <= k < |ItemsOf(room.spawns)| ==> |ItemsOf(ItemsOf(room.spawns)[k].entities)| <= MAX_ENTITIES
  }

  /** A room as Deserialize leaves it: a name that reads back as itself, counts within their fields, and no null array anywhere. */
  predicate Filled(room: Room)
  {
    && Lossless(room.name)
    && room.doors.Some? && |room.doors.value| <= MAX_DOORS
    && room.spawns.Some? && |room.spawns.value| <= MAX_SPAWNS
    && forall k :: 0 <= k < |room.spawns.value| ==> FilledSpawn(room.spawns.value[k])
  }

  /** The fields from Type to Shape, into a room whose arrays are still null. */
  function FieldsAt(s: Bytes, pos: nat): (r: Result<(Room, nat)>)
    ensures r.Ok? ==> var room := r.value.0;
      Lossless(room.name) && room.doors.None? && room.spawns.None?
  {
    var kind :- ReadU32N(s, pos, Little);
    var variant :- ReadU32N(s, kind.1, Little);
    var subtype :- ReadU32N(s, variant.1, Little);
    var difficulty :- ReadU8(s, subtype.1);
    var name :- ReadString(s, difficulty.1, Little);
    var weight :- ReadU32(s, name.1, Little);
    var width :- ReadU8(s, weight.1);
    var height :- ReadU8(s, width.1);
    var shape :- ReadU8(s, height.1);
    Ok((Room(kind.0, variant.0, subtype.0, difficulty.0, Some(name.0), weight.0, width.0, height.0, shape.0, None, None),
        shape.1))
  }

  /** The bytes of the fields from Type to Shape; the name is written by WriteString. */
  function FieldsBytes(room: Room): (r: Result<Bytes>)
    ensures r.Ok? <==> room.name.Some? && |room.name.value| <= MAX_STRING_LENGTH
    ensures r.Err? ==> r.error == WriteString(room.name, Little).error
  {
    var name :- WriteString(room.name, Little);
    Ok(EncodeU32N(room.kind, Little) + EncodeU32N(room.variant, Little) + EncodeU32N(room.subtype, Little)
       + [room.difficulty] + name + EncodeU32(room.weight, Little) + [room.width, room.height, room.shape])
  }

  /** Deserialize's loop body: the fields, the two counts, the doors, then the spawns. */
  function RoomAt(s: Bytes, pos: nat): (r: Result<(Room, nat)>)
    ensures r.Ok? ==> Filled(r.value.0)
  {
    var fields :- FieldsAt(s, pos);
    var doorCount :- ReadU8(s, fields.1);
    var spawnCount :- ReadU16N(s, doorCount.1, Little);
    var doors :- ReadMany(s, spawnCount.1, 0, doorCount.0 as nat, DoorReader(), NoCheck());
    var spawns :- ReadMany(s, doors.1, 0, spawnCount.0, SpawnReader(), NoCheck());
    ReadManyEach(s, doors.1, 0, spawnCount.0, SpawnReader(), NoCheck(), FilledSpawn);
    assert forall k :: 0 <= k < |spawns.0| ==> spawns.0[k] in spawns.0;
    Ok((fields.0.(doors := Some(doors.0), spawns := Some(spawns.0)), spawns.1))
  }

  /**
   * Serialize's loop body: the fields, then the counts, which must fit a u8 and a u16
   * (InvalidOperation otherwise), the doors, then the spawns. A null array is written
   * as a count of 0.
   */
  function RoomBytes(room: Room): (r: Result<Bytes>)
    ensures r.Ok? <==> Writable(room)
    ensures room.name.None? ==> r == Err(ArgumentNull)
    ensures room.name.Some? && |room.name.value| > MAX_STRING_LENGTH ==> r == Err(ArgumentOutOfRange)
    ensures room.name.Some? && |room.name.value| <= MAX_STRING_LENGTH && !Writable(room) ==> r == Err(InvalidOperation)
  {
    var fields :- FieldsBytes(room);
    var doors, spawns := ItemsOf(room.doors), ItemsOf(room.spawns);
    if |doors| > MAX_DOORS || |spawns| > MAX_SPAWNS then Err(InvalidOperation)
    else
      WriteManyOk(doors, DoorWriter());
      WriteManyOk(spawns, SpawnWriter());
      WriteManyError(spawns, SpawnWriter(), InvalidOperation);
      var doorBytes := WriteMany(doors, DoorWriter()).value;
      var spawnBytes :- WriteMany(spawns, SpawnWriter());
      Ok(fields + ([ByteOf(|doors|)] + EncodeU16N(|spawns|, Little)) + doorBytes + spawnBytes)
  }

  function RoomReader(): Reader<Room>
  {
    (s: Bytes, p: nat) => RoomAt(s, p)
  }

  function RoomWriter(): Writer<Room>
  {
    (room: Room) => RoomBytes(room)
  }

  // ---------------------------------------------------------------------------
  // The whole file

  /** Deserialize: the signature (FormatException if it is not "STB1"), the u32 count, then the rooms. */
  function StageAt(s: Bytes, pos: nat): (r: Result<(seq<Room>, nat)>)
    ensures ReadU32(s, pos, Little).Ok? && ReadU32(s, pos, Little).value.0 != SIGNATURE ==> r == Err(Format(""))
    ensures r.Ok? ==> forall k :: 0 <= k < |r.value.0| ==> Filled(r.value.0[k])
  {
    var magic :- ReadU32(s, pos, Little);
    if magic.0 != SIGNATURE then Err(Format(""))
    else
      var count :- ReadU32N(s, magic.1, Little);
      var rooms :- ReadMany(s, count.1, 0, count.0, RoomReader(), NoCheck());
      ReadManyEach(s, count.1, 0, count.0, RoomReader(), NoCheck(), Filled);
      assert forall k :: 0 <= k < |rooms.0| ==> rooms.0[k] in rooms.0;
      Ok(rooms)
  }

  /** Serialize: the signature, the room count as S32, then each room. */
  function StageBytes(rooms: seq<Room>): (r: Result<Bytes>)
    ensures r.Ok? <==> forall k :: 0 <= k < |rooms| ==> Writable(rooms[k])
  {
    WriteManyOk(rooms, RoomWriter());
    var body :- WriteMany(rooms, RoomWriter());
    Ok(EncodeU32(SIGNATURE, Little) + EncodeCount(|rooms|, Little) + body)
  }

  /** The rooms Deserialize leaves in place of the old ones, or the old ones kept on a failure. */
  function Deserialized(s: Bytes, pos: nat, before: seq<Room>): (r: (seq<Room>, Result<nat>))
    ensures StageAt(s, pos).Err? ==> r == (before, Err(StageAt(s, pos).error))
    ensures StageAt(s, pos).Ok? ==> r == (StageAt(s, pos).value.0, Ok(StageAt(s, pos).value.1))
  {
    match StageAt(s, pos)
    case Err(err) => (before, Err(err))
    case Ok((rooms, end)) => (rooms, Ok(end))
  }

  // ---------------------------------------------------------------------------
  // StageBinaryFile's read and write loops, as methods

  /** The spawn reader with its entity loop. */
  method ReadSpawn(s: Bytes, pos: nat) returns (r: Result<(Spawn, nat)>)
    ensures r == SpawnAt(s, pos)
  {
    var x := ReadU16(s, pos, Little);
    if x.Err? {
      return Err(x.error);
    }
    var y := ReadU16(s, x.value.1, Little);
    if y.Err? {
      return Err(y.error);
    }
    var count := ReadU8(s, y.value.1);
    if count.Err? {
      return Err(count.error);
    }
    var entities := ReadArray(s, count.value.1, count.value.0 as nat, EntityReader(), NoCheck());
    if entities.Err? {
      return Err(entities.error);
    }
    r := Ok((Spawn(x.value.0, y.value.0, Some(entities.value.0)), entities.value.1));
  }

  /** The room reader: the fields and counts, the door loop, then the spawn loop. */
  method ReadRoom(s: Bytes, pos: nat) returns (r: Result<(Room, nat)>)
    ensures r == RoomAt(s, pos)
  {
    var fields := FieldsAt(s, pos);
    if fields.Err? {
      return Err(fields.error);
    }
    var doorCount := ReadU8(s, fields.value.1);
    if doorCount.Err? {
      return Err(doorCount.error);
    }
    var spawnCount := ReadU16N(s, doorCount.value.1, Little);
    if spawnCount.Err? {
      return Err(spawnCount.error);
    }
    var doors := ReadArray(s, spawnCount.value.1, doorCount.value.0 as nat, DoorReader(), NoCheck());
    if doors.Err? {
      return Err(doors.error);
    }
    var spawns := ReadSpawns(s, doors.value.1, spawnCount.value.0);
    if spawns.Err? {
      return Err(spawns.error);
    }
    r := Ok((fields.value.0.(doors := Some(doors.value.0), spawns := Some(spawns.value.0)), spawns.value.1));
  }

  /** The spawn loop of a room, filling a fresh array one spawn at a time. */
  method ReadSpawns(s: Bytes, pos: nat, n: nat) returns (r: Result<(seq<Spawn>, nat)>)
    ensures r == ReadMany(s, pos, 0, n, SpawnReader(), NoCheck())
  {
    var spawns: seq<Spawn> := [];
    var p := pos;
    var j := 0;
    ghost var whole := ReadMany(s, p, 0, n, SpawnReader(), NoCheck());
    ghost var rest := whole;
    ReadBegins(s, p, n, SpawnReader(), NoCheck());
    while j < n
      invariant j <= n && rest == ReadMany(s, p, j, n, SpawnReader(), NoCheck())
      invariant whole == After(spawns, rest)
      decreases n - j
    {
      var spawn := ReadSpawn(s, p);
      assert SpawnReader()(s, p) == spawn;
      if spawn.Err? {
        ReadStops(s, p, j, n, SpawnReader(), NoCheck(), spawns, whole);
        return Err(spawn.error);
      }
      ReadOn(s, p, j, n, SpawnReader(), NoCheck(), spawns, whole, spawn.value.0, spawn.value.1);
      spawns := spawns + [spawn.value.0];
      p := spawn.value.1;
      j := j + 1;
      rest := ReadMany(s, p, j, n, SpawnReader(), NoCheck());
    }
    ReadEnds(s, p, j, n, SpawnReader(), NoCheck(), spawns, whole);
    r := Ok((spawns, p));
  }

  /** The room writer: the fields, the count checks, then the door and spawn loops. */
  method WriteRoom(room: Room) returns (r: Result<Bytes>)
    ensures r == RoomBytes(room)
  {
    var fields := FieldsBytes(room);
    if fields.Err? {
      return Err(fields.error);
    }
    var doors, spawns := ItemsOf(room.doors), ItemsOf(room.spawns);
    if |doors| > MAX_DOORS {
      return Err(InvalidOperation);
    }
    if |spawns| > MAX_SPAWNS {
      return Err(InvalidOperation);
    }
    var doorBytes := WriteArray(doors, DoorWriter());
    WriteManyOk(doors, DoorWriter());
    var spawnBytes := WriteArray(spawns, SpawnWriter());
    if spawnBytes.Err? {
      return Err(spawnBytes.error);
    }
    r := Ok(fields.value + ([ByteOf(|doors|)] + EncodeU16N(|spawns|, Little)) + doorBytes.value + spawnBytes.value);
  }

  /** After the signature and the count, StageAt is the room array. */
  lemma StageFromCount(s: Bytes, pos: nat, n: u32)
    requires ReadU32(s, pos, Little) == Ok((SIGNATURE, pos + 4)) && ReadU32N(s, pos + 4, Little) == Ok((n, pos + 8))
    ensures StageAt(s, pos) == ReadMany(s, pos + 8, 0, n, RoomReader(), NoCheck())
  {
  }

  /** Deserialize's room loop, filling a fresh array one room at a time. */
  method ReadRooms(s: Bytes, pos: nat, n: nat) returns (r: Result<(seq<Room>, nat)>)
    ensures r == ReadMany(s, pos, 0, n, RoomReader(), NoCheck())
  {
    var rooms: seq<Room> := [];
    var p := pos;
    var i := 0;
    ghost var whole := ReadMany(s, p, 0, n, RoomReader(), NoCheck());
    ghost var rest := whole;
    ReadBegins(s, p, n, RoomReader(), NoCheck());
    while i < n
      invariant i <= n && rest == ReadMany(s, p, i, n, RoomReader(), NoCheck())
      invariant whole == After(rooms, rest)
      decreases n - i
    {
      var room := ReadRoom(s, p);
      assert RoomReader()(s, p) == room;
      if room.Err? {
        ReadStops(s, p, i, n, RoomReader(), NoCheck(), rooms, whole);
        return Err(room.error);
      }
      ReadOn(s, p, i, n, RoomReader(), NoCheck(), rooms, whole, room.value.0, room.value.1);
      rooms := rooms + [room.value.0];
      p := room.value.1;
      i := i + 1;
      rest := ReadMany(s, p, i, n, RoomReader(), NoCheck());
    }
    ReadEnds(s, p, i, n, RoomReader(), NoCheck(), rooms, whole);
    r := Ok((rooms, p));
  }

  /** Deserialize's parse: the signature, the count, then the rooms. */
  method ReadStage(s: Bytes, pos: nat) returns (r: Result<(seq<Room>, nat)>)
    ensures r == StageAt(s, pos)
  {
    var magic := ReadU32(s, pos, Little);
    if magic.Err? {
      return Err(magic.error);
    }
    if magic.value.0 != SIGNATURE {
      return Err(Format(""));
    }
    var count := ReadU32N(s, magic.value.1, Little);
    if count.Err? {
      return Err(count.error);
    }
    StageFromCount(s, pos, count.value.0);
    r := ReadRooms(s, count.value.1, count.value.0);
  }

  /** Serialize's output: the signature and count, then the room loop. */
  method WriteStage(rooms: seq<Room>) returns (r: Result<Bytes>)
    ensures r == StageBytes(rooms)
  {
    var body := WriteRooms(rooms);
    if body.Err? {
      return Err(body.error);
    }
    r := Ok(EncodeU32(SIGNATURE, Little) + EncodeCount(|rooms|, Little) + body.value);
  }

  /** Serialize's room loop, writing each room in turn. */
  method WriteRooms(rooms: seq<Room>) returns (r: Result<Bytes>)
    ensures r == WriteMany(rooms, RoomWriter())
  {
    var body: Bytes := [];
    var i := 0;
    ghost var whole := WriteMany(rooms, RoomWriter());
    WriteBegins(rooms, RoomWriter());
    while i < |rooms|
      invariant i <= |rooms|
      invariant whole == Behind(body, WriteMany(rooms[i..], RoomWriter()))
      decreases |rooms| - i
    {
      var w := WriteRoom(rooms[i]);
      assert RoomWriter()(rooms[i]) == w;
      if w.Err? {
        WriteStops(rooms, i, RoomWriter(), body, whole);
        return Err(w.error);
      }
      WriteOn(rooms, i, RoomWriter(), body, whole, w.value);
      body := body + w.value;
      i := i + 1;
    }
    WriteEnds(rooms, i, RoomWriter(), body, whole);
    r := Ok(body);
  }

  class StageBinaryFile {
    /** _Rooms. */
    var rooms: seq<Room>

    constructor()
      ensures rooms == []
    {
      rooms := [];
    }

    /** Serialize. */
    method Serialize() returns (r: Result<Bytes>)
      ensures r == StageBytes(rooms)
    {
      r := WriteStage(rooms);
    }

    /** Deserialize: only a parse that completes replaces the rooms. */
    method Deserialize(s: Bytes, pos: nat) returns (r: Result<nat>)
      modifies this
      ensures (rooms, r) == Deserialized(s, pos, old(rooms))
    {
      var parsed := ReadStage(s, pos);
      if parsed.Err? {
        return Err(parsed.error);
      }
      rooms := parsed.value.0;
      r := Ok(parsed.value.1);
    }
  }

  // ---------------------------------------------------------------------------
  // Null arrays are written as empty ones

  /** A spawn with a null entity array replaced by an empty one. */
  function FillSpawn(sp: Spawn): (r: Spawn)
    ensures SpawnBytes(r) == SpawnBytes(sp)
    ensures |ItemsOf(sp.entities)| <= MAX_ENTITIES ==> FilledSpawn(r)
    ensures FilledSpawn(sp) ==> r == sp
  {
    sp.(entities := Some(ItemsOf(sp.entities)))
  }

  /** A room with each null door, spawn or entity array replaced by an empty one. */
  function FillRoom(room: Room): (r: Room)
    ensures Writable(room) && Lossless(room.name) ==> Filled(r)
    ensures Filled(room) ==> r == room
  {
    var spawns := ItemsOf(room.spawns);
    var filled := seq(|spawns|, k requires 0 <= k < |spawns| => FillSpawn(spawns[k]));
    assert Filled(room) ==> filled == spawns;
    room.(doors := Some(ItemsOf(room.doors)), spawns := Some(filled))
  }

  function FillRooms(rooms: seq<Room>): (r: seq<Room>)
    ensures |r| == |rooms| && forall k :: 0 <= k < |rooms| ==> r[k] == FillRoom(rooms[k])
  {
    seq(|rooms|, k requires 0 <= k < |rooms| => FillRoom(rooms[k]))
  }

  /** Serialize writes a null array exactly as it writes an empty one. */
  lemma RoomNullsWrittenAsEmpty(room: Room)
    ensures RoomBytes(FillRoom(room)) == RoomBytes(room)
  {
    var spawns := ItemsOf(room.spawns);
    var filled := ItemsOf(FillRoom(room).spawns);
    WriteManyAlike(filled, spawns, SpawnWriter());
  }

  lemma StageNullsWrittenAsEmpty(rooms: seq<Room>)
    ensures StageBytes(FillRooms(rooms)) == StageBytes(rooms)
  {
    forall k | 0 <= k < |rooms|
      ensures RoomWriter()(FillRooms(rooms)[k]) == RoomWriter()(rooms[k])
    {
      RoomNullsWrittenAsEmpty(rooms[k]);
    }
    WriteManyAlike(FillRooms(rooms), rooms, RoomWriter());
  }

  // ---------------------------------------------------------------------------
  // Reading back what Serialize writes

  lemma EntityReadsBackAt(s: Bytes, p: nat, x: Entity)
    requires At(s, p, EntityBytes(x))
    ensures EntityAt(s, p) == Ok((x, p + 10))
  {
    AtSplit4(s, p, EncodeU16N(x.kind, Little), EncodeU16N(x.variant, Little), EncodeU16N(x.subtype, Little), EncodeU32(x.weight, Little));
    ReadU16NAt(s, p, x.kind, Little);
    ReadU16NAt(s, p + 2, x.variant, Little);
    ReadU16NAt(s, p + 4, x.subtype, Little);
    ReadU32At(s, p + 6, x.weight, Little);
  }

  lemma EntitiesRoundTrip(xs: seq<Entity>)
    ensures AllReadBack(EntityReader(), EntityWriter(), NoCheck(), 0, xs)
  {
    forall k | 0 <= k < |xs|
      ensures ReadsBack(EntityReader(), EntityWriter(), xs[k]) && NoCheck<Entity>()(0 + k, xs[k]).Ok?
    {
      forall s: Bytes, p: nat, end: nat | At(s, p, EntityBytes(xs[k])) && end == p + 10
        ensures EntityAt(s, p) == Ok((xs[k], end))
      {
        EntityReadsBackAt(s, p, xs[k]);
      }
      ReadsBackFromPlacements(EntityReader(), EntityWriter(), xs[k]);
    }
    AllReadBackOf(EntityReader(), EntityWriter(), NoCheck(), 0, xs);
  }

  /** A door reads back, Exists included: WriteValueB8 writes 1 or 0 and ReadValueB8 reads any non-zero byte as true. */
  lemma DoorReadsBackAt(s: Bytes, p: nat, d: Door)
    requires At(s, p, DoorBytes(d))
    ensures DoorAt(s, p) == Ok((d, p + 5))
  {
    AtSplit(s, p, EncodeU16(d.x, Little) + EncodeU16(d.y, Little), EncodeBool(d.present));
    AtSplit(s, p, EncodeU16(d.x, Little), EncodeU16(d.y, Little));
    ReadU16At(s, p, d.x, Little);
    ReadU16At(s, p + 2, d.y, Little);
    ReadBoolAt(s, p + 4, d.present);
  }

  lemma DoorsRoundTrip(ds: seq<Door>)
    ensures AllReadBack(DoorReader(), DoorWriter(), NoCheck(), 0, ds)
  {
    forall k | 0 <= k < |ds|
      ensures ReadsBack(DoorReader(), DoorWriter(), ds[k]) && NoCheck<Door>()(0 + k, ds[k]).Ok?
    {
      forall s: Bytes, p: nat, end: nat | At(s, p, DoorBytes(ds[k])) && end == p + 5
        ensures DoorAt(s, p) == Ok((ds[k], end))
      {
        DoorReadsBackAt(s, p, ds[k]);
      }
      ReadsBackFromPlacements(DoorReader(), DoorWriter(), ds[k]);
    }
    AllReadBackOf(DoorReader(), DoorWriter(), NoCheck(), 0, ds);
  }

  lemma SpawnReadsBackAt(s: Bytes, p: nat, sp: Spawn, end: nat)
    requires FilledSpawn(sp) && At(s, p, SpawnBytes(sp).value) && end == p + |SpawnBytes(sp).value|
    ensures SpawnAt(s, p) == Ok((sp, end))
  {
    var xs := sp.entities.value;
    WriteManyOk(xs, EntityWriter());
    var body := WriteMany(xs, EntityWriter()).value;
    AtSplit4(s, p, EncodeU16(sp.x, Little), EncodeU16(sp.y, Little), [ByteOf(|xs|)], body);
    ReadU16At(s, p, sp.x, Little);
    ReadU16At(s, p + 2, sp.y, Little);
    ReadU8At(s, p + 4, ByteOf(|xs|));
    EntitiesRoundTrip(xs);
    ReadManyWritten(s, p + 5, 0, |xs|, end, xs, EntityReader(), EntityWriter(), NoCheck());
  }

  lemma SpawnsRoundTrip(sps: seq<Spawn>)
    requires forall k :: 0 <= k < |sps| ==> FilledSpawn(sps[k])
    ensures AllReadBack(SpawnReader(), SpawnWriter(), NoCheck(), 0, sps)
  {
    forall k | 0 <= k < |sps|
      ensures ReadsBack(SpawnReader(), SpawnWriter(), sps[k]) && NoCheck<Spawn>()(0 + k, sps[k]).Ok?
    {
      var sp := sps[k];
      forall s: Bytes, p: nat, end: nat | At(s, p, SpawnBytes(sp).value) && end == p + |SpawnBytes(sp).value|
        ensures SpawnAt(s, p) == Ok((sp, end))
      {
        SpawnReadsBackAt(s, p, sp, end);
      }
      ReadsBackFromPlacements(SpawnReader(), SpawnWriter(), sp);
    }
    AllReadBackOf(SpawnReader(), SpawnWriter(), NoCheck(), 0, sps);
  }

  /** Where each piece sits in bytes laid out as FieldsBytes lays out the fields. */
  lemma FieldsLayout(s: Bytes, p: nat, kind: Bytes, variant: Bytes, subtype: Bytes, difficulty: bv8, name: Bytes,
                     weight: Bytes, width: bv8, height: bv8, shape: bv8)
    requires |kind| == 4 && |variant| == 4 && |subtype| == 4 && |weight| == 4
    requires At(s, p, kind + variant + subtype + [difficulty] + name + weight + [width, height, shape])
    ensures At(s, p, kind) && At(s, p + 4, variant) && At(s, p + 8, subtype) && At(s, p + 12, [difficulty])
    ensures At(s, p + 13, name)
    ensures var t := p + 13 + |name| + 4;
      At(s, t - 4, weight) && At(s, t, [width]) && At(s, t + 1, [height]) && At(s, t + 2, [shape])
  {
    var tail := [width, height, shape];
    assert kind + variant + subtype + [difficulty] + name + weight + tail
        == (kind + variant + subtype + [difficulty]) + (name + (weight + tail));
    AtSplit(s, p, kind + variant + subtype + [difficulty], name + (weight + tail));
    AtSplit4(s, p, kind, variant, subtype, [difficulty]);
    var q := p + 13;
    AtSplit(s, q, name, weight + tail);
    AtSplit(s, q + |name|, weight, tail);
    var t := q + |name| + 4;
    assert tail == [width] + ([height] + [shape]);
    AtSplit(s, t, [width], [height] + [shape]);
    AtSplit(s, t + 1, [height], [shape]);
  }

  /** Where each field sits in the bytes of the fields from Type to Shape. */
  lemma FieldsPiecesAt(s: Bytes, p: nat, room: Room)
    requires room.name.Some? && |room.name.value| <= MAX_STRING_LENGTH
    requires At(s, p, FieldsBytes(room).value)
    ensures At(s, p, EncodeU32N(room.kind, Little)) && At(s, p + 4, EncodeU32N(room.variant, Little))
    ensures At(s, p + 8, EncodeU32N(room.subtype, Little)) && At(s, p + 12, [room.difficulty])
    ensures At(s, p + 13, EncodeString(room.name.value, Little))
    ensures var t := p + 15 + |room.name.value|;
      At(s, t, EncodeU32(room.weight, Little)) && At(s, t + 4, [room.width]) && At(s, t + 5, [room.height]) && At(s, t + 6, [room.shape])
    ensures |FieldsBytes(room).value| == 22 + |room.name.value|
  {
    var name := EncodeString(room.name.value, Little);
    FieldsLayout(s, p, EncodeU32N(room.kind, Little), EncodeU32N(room.variant, Little), EncodeU32N(room.subtype, Little),
                 room.difficulty, name, EncodeU32(room.weight, Little), room.width, room.height, room.shape);
  }

  /** FieldsAt from the reads of its fields. */
  lemma FieldsFromReads(s: Bytes, p: nat, room: Room, t: nat)
    requires room.name.Some? && t == p + 15 + |room.name.value|
    requires ReadU32N(s, p, Little) == Ok((room.kind, p + 4)) && ReadU32N(s, p + 4, Little) == Ok((room.variant, p + 8))
    requires ReadU32N(s, p + 8, Little) == Ok((room.subtype, p + 12)) && ReadU8(s, p + 12) == Ok((room.difficulty, p + 13))
    requires ReadString(s, p + 13, Little) == Ok((room.name.value, t))
    requires ReadU32(s, t, Little) == Ok((room.weight, t + 4)) && ReadU8(s, t + 4) == Ok((room.width, t + 5))
    requires ReadU8(s, t + 5) == Ok((room.height, t + 6)) && ReadU8(s, t + 6) == Ok((room.shape, t + 7))
    ensures FieldsAt(s, p) == Ok((room.(doors := None, spawns := None), t + 7))
  {
  }

  /** Each field read where it was written. */
  lemma FieldReadsAt(s: Bytes, p: nat, room: Room, t: nat)
    requires Lossless(room.name) && t == p + 15 + |room.name.value|
    requires At(s, p, EncodeU32N(room.kind, Little)) && At(s, p + 4, EncodeU32N(room.variant, Little))
    requires At(s, p + 8, EncodeU32N(room.subtype, Little)) && At(s, p + 12, [room.difficulty])
    requires At(s, p + 13, EncodeString(room.name.value, Little))
    requires At(s, t, EncodeU32(room.weight, Little)) && At(s, t + 4, [room.width]) && At(s, t + 5, [room.height]) && At(s, t + 6, [room.shape])
    ensures ReadU32N(s, p, Little) == Ok((room.kind, p + 4)) && ReadU32N(s, p + 4, Little) == Ok((room.variant, p + 8))
    ensures ReadU32N(s, p + 8, Little) == Ok((room.subtype, p + 12)) && ReadU8(s, p + 12) == Ok((room.difficulty, p + 13))
    ensures ReadString(s, p + 13, Little) == Ok((room.name.value, t))
    ensures ReadU32(s, t, Little) == Ok((room.weight, t + 4)) && ReadU8(s, t + 4) == Ok((room.width, t + 5))
    ensures ReadU8(s, t + 5) == Ok((room.height, t + 6)) && ReadU8(s, t + 6) == Ok((room.shape, t + 7))
  {
    ReadU32NAt(s, p, room.kind, Little);
    ReadU32NAt(s, p + 4, room.variant, Little);
    ReadU32NAt(s, p + 8, room.subtype, Little);
    ReadU8At(s, p + 12, room.difficulty);
    ReadStringAt(s, p + 13, room.name.value, Little);
    ReadU32At(s, t, room.weight, Little);
    ReadU8At(s, t + 4, room.width);
    ReadU8At(s, t + 5, room.height);
    ReadU8At(s, t + 6, room.shape);
  }

  /** The fields from Type to Shape read back into the room, its arrays still null. */
  lemma FieldsReadBackAt(s: Bytes, p: nat, room: Room, end: nat)
    requires Lossless(room.name)
    requires At(s, p, FieldsBytes(room).value) && end == p + |FieldsBytes(room).value|
    ensures FieldsAt(s, p) == Ok((room.(doors := None, spawns := None), end))
  {
    FieldsPiecesAt(s, p, room);
    var t := p + 15 + |room.name.value|;
    FieldReadsAt(s, p, room, t);
    FieldsFromReads(s, p, room, t);
  }

  /** RoomAt from its stages: the fields, the counts, the doors, the spawns. */
  lemma RoomFromStages(s: Bytes, p: nat, room: Room, q: nat, d: nat, end: nat)
    requires room.doors.Some? && |room.doors.value| <= MAX_DOORS && room.spawns.Some?
    requires FieldsAt(s, p) == Ok((room.(doors := None, spawns := None), q))
    requires ReadU8(s, q) == Ok((ByteOf(|room.doors.value|), q + 1))
    requires ReadU16N(s, q + 1, Little) == Ok((|room.spawns.value|, q + 3))
    requires ReadMany(s, q + 3, 0, |room.doors.value|, DoorReader(), NoCheck()) == Ok((room.doors.value, d))
    requires ReadMany(s, d, 0, |room.spawns.value|, SpawnReader(), NoCheck()) == Ok((room.spawns.value, end))
    ensures RoomAt(s, p) == Ok((room, end))
  {
  }

  /** Where the fields, the two counts, the doors and the spawns sit in a room's bytes. */
  lemma RoomPiecesAt(s: Bytes, p: nat, room: Room) returns (q: nat, d: nat)
    requires Filled(room) && At(s, p, RoomBytes(room).value)
    ensures WriteMany(room.doors.value, DoorWriter()).Ok?
    ensures q == p + |FieldsBytes(room).value| && d == q + 3 + |WriteMany(room.doors.value, DoorWriter()).value|
    ensures At(s, p, FieldsBytes(room).value)
    ensures At(s, q, [ByteOf(|room.doors.value|)]) && At(s, q + 1, EncodeU16N(|room.spawns.value|, Little))
    ensures At(s, q + 3, WriteMany(room.doors.value, DoorWriter()).value)
    ensures At(s, d, WriteMany(room.spawns.value, SpawnWriter()).value)
    ensures p + |RoomBytes(room).value| == d + |WriteMany(room.spawns.value, SpawnWriter()).value|
  {
    var doors, spawns := room.doors.value, room.spawns.value;
    WriteManyOk(doors, DoorWriter());
    var fields := FieldsBytes(room).value;
    var counts := [ByteOf(|doors|)] + EncodeU16N(|spawns|, Little);
    var doorBytes := WriteMany(doors, DoorWriter()).value;
    var spawnBytes := WriteMany(spawns, SpawnWriter()).value;
    assert RoomBytes(room).value == fields + counts + doorBytes + spawnBytes;
    AtSplit4(s, p, fields, counts, doorBytes, spawnBytes);
    q := p + |fields|;
    d := q + 3 + |doorBytes|;
    AtSplit(s, q, [ByteOf(|doors|)], EncodeU16N(|spawns|, Little));
  }

  /** The counts, the doors and the spawns after a room's fields read back. */
  lemma ArraysReadBackAt(s: Bytes, q: nat, d: nat, end: nat, doors: seq<Door>, spawns: seq<Spawn>)
    requires |doors| <= MAX_DOORS && |spawns| <= MAX_SPAWNS
    requires forall k :: 0 <= k < |spawns| ==> FilledSpawn(spawns[k])
    requires WriteMany(doors, DoorWriter()).Ok? && d == q + 3 + |WriteMany(doors, DoorWriter()).value|
    requires WriteMany(spawns, SpawnWriter()).Ok? && end == d + |WriteMany(spawns, SpawnWriter()).value|
    requires At(s, q, [ByteOf(|doors|)]) && At(s, q + 1, EncodeU16N(|spawns|, Little))
    requires At(s, q + 3, WriteMany(doors, DoorWriter()).value) && At(s, d, WriteMany(spawns, SpawnWriter()).value)
    ensures ReadU8(s, q) == Ok((ByteOf(|doors|), q + 1))
    ensures ReadU16N(s, q + 1, Little) == Ok((|spawns|, q + 3))
    ensures ReadMany(s, q + 3, 0, |doors|, DoorReader(), NoCheck()) == Ok((doors, d))
    ensures ReadMany(s, d, 0, |spawns|, SpawnReader(), NoCheck()) == Ok((spawns, end))
  {
    ReadU8At(s, q, ByteOf(|doors|));
    ReadU16NAt(s, q + 1, |spawns|, Little);
    DoorsRoundTrip(doors);
    ReadManyWritten(s, q + 3, 0, |doors|, d, doors, DoorReader(), DoorWriter(), NoCheck());
    SpawnsRoundTrip(spawns);
    ReadManyWritten(s, d, 0, |spawns|, end, spawns, SpawnReader(), SpawnWriter(), NoCheck());
  }

  lemma RoomReadsBackAt(s: Bytes, p: nat, room: Room, end: nat)
    requires Filled(room) && At(s, p, RoomBytes(room).value) && end == p + |RoomBytes(room).value|
    ensures RoomAt(s, p) == Ok((room, end))
  {
    var q, d := RoomPiecesAt(s, p, room);
    FieldsReadBackAt(s, p, room, q);
    ArraysReadBackAt(s, q, d, end, room.doors.value, room.spawns.value);
    RoomFromStages(s, p, room, q, d, end);
  }

  lemma RoomsRoundTrip(rooms: seq<Room>)
    requires forall k :: 0 <= k < |rooms| ==> Filled(rooms[k])
    ensures AllReadBack(RoomReader(), RoomWriter(), NoCheck(), 0, rooms)
  {
    forall k | 0 <= k < |rooms|
      ensures ReadsBack(RoomReader(), RoomWriter(), rooms[k]) && NoCheck<Room>()(0 + k, rooms[k]).Ok?
    {
      var room := rooms[k];
      forall s: Bytes, p: nat, end: nat | At(s, p, RoomBytes(room).value) && end == p + |RoomBytes(room).value|
        ensures RoomAt(s, p) == Ok((room, end))
      {
        RoomReadsBackAt(s, p, room, end);
      }
      ReadsBackFromPlacements(RoomReader(), RoomWriter(), room);
    }
    AllReadBackOf(RoomReader(), RoomWriter(), NoCheck(), 0, rooms);
  }

  /** Where the signature, the count and the rooms sit in a stage's bytes. */
  lemma StagePiecesAt(s: Bytes, p: nat, rooms: seq<Room>) returns (body: Bytes)
    requires StageBytes(rooms).Ok? && At(s, p, StageBytes(rooms).value)
    ensures WriteMany(rooms, RoomWriter()) == Ok(body)
    ensures At(s, p, EncodeU32(SIGNATURE, Little)) && At(s, p + 4, EncodeCount(|rooms|, Little) + body)
    ensures |StageBytes(rooms).value| == 8 + |body|
  {
    body := WriteMany(rooms, RoomWriter()).value;
    var signature := EncodeU32(SIGNATURE, Little);
    assert StageBytes(rooms).value == signature + (EncodeCount(|rooms|, Little) + body);
    AtSplit(s, p, signature, EncodeCount(|rooms|, Little) + body);
  }

  /** StageAt from the signature, the count and the rooms read in turn. */
  lemma StageFromReads(s: Bytes, p: nat, rooms: seq<Room>, end: nat)
    requires |rooms| < TWO_32 && ReadU32(s, p, Little) == Ok((SIGNATURE, p + 4))
    requires ReadU32N(s, p + 4, Little) == Ok((|rooms|, p + 8))
    requires ReadMany(s, p + 8, 0, |rooms|, RoomReader(), NoCheck()).Ok?
    requires ReadMany(s, p + 8, 0, |rooms|, RoomReader(), NoCheck()).value.0 == rooms
    requires ReadMany(s, p + 8, 0, |rooms|, RoomReader(), NoCheck()).value.1 == end
    ensures StageAt(s, p) == Ok((rooms, end))
  {
    StageFromCount(s, p, |rooms|);
  }

  /** The room count and the rooms after the signature read back. */
  lemma CountedRoomsReadBackAt(s: Bytes, p: nat, rooms: seq<Room>, body: Bytes)
    requires |rooms| < TWO_32 && forall k :: 0 <= k < |rooms| ==> Filled(rooms[k])
    requires WriteMany(rooms, RoomWriter()) == Ok(body) && At(s, p, EncodeCount(|rooms|, Little) + body)
    ensures ReadU32N(s, p, Little) == Ok((|rooms|, p + 4))
    ensures ReadMany(s, p + 4, 0, |rooms|, RoomReader(), NoCheck()).Ok?
    ensures ReadMany(s, p + 4, 0, |rooms|, RoomReader(), NoCheck()).value.0 == rooms
    ensures ReadMany(s, p + 4, 0, |rooms|, RoomReader(), NoCheck()).value.1 == p + 4 + |body|
  {
    AtSplit(s, p, EncodeCount(|rooms|, Little), body);
    ReadCountAt(s, p, |rooms|, Little);
    RoomsRoundTrip(rooms);
    ReadManyWritten(s, p + 4, 0, |rooms|, p + 4 + |body|, rooms, RoomReader(), RoomWriter(), NoCheck());
  }

  /** Rooms with no null array read back exactly. */
  lemma FilledStageReadsBack(s: Bytes, p: nat, rooms: seq<Room>, end: nat)
    requires |rooms| < TWO_32 && forall k :: 0 <= k < |rooms| ==> Filled(rooms[k])
    requires StageBytes(rooms).Ok? && At(s, p, StageBytes(rooms).value) && end == p + |StageBytes(rooms).value|
    ensures StageAt(s, p) == Ok((rooms, end))
  {
    var body := StagePiecesAt(s, p, rooms);
    ReadU32At(s, p, SIGNATURE, Little);
    CountedRoomsReadBackAt(s, p + 4, rooms, body);
    StageFromReads(s, p, rooms, end);
  }

  /**
   * Whatever Serialize writes, Deserialize reads back: the same rooms, with every null
   * array read as an empty one.
   */
  lemma StageRoundTrips(s: Bytes, p: nat, rooms: seq<Room>, end: nat)
    requires |rooms| < TWO_32 && forall k :: 0 <= k < |rooms| ==> Writable(rooms[k]) && Lossless(rooms[k].name)
    requires At(s, p, StageBytes(rooms).value) && end == p + |StageBytes(rooms).value|
    ensures StageAt(s, p) == Ok((FillRooms(rooms), end))
    ensures (forall k :: 0 <= k < |rooms| ==> Filled(rooms[k])) ==> StageAt(s, p) == Ok((rooms, end))
  {
    StageNullsWrittenAsEmpty(rooms);
    FilledStageReadsBack(s, p, FillRooms(rooms), end);
    if forall k :: 0 <= k < |rooms| ==> Filled(rooms[k]) {
      assert FillRooms(rooms) == rooms;
    }
  }

  /** The signature is the ASCII bytes "STB1". */
  lemma SignatureSpellsSTB1()
    ensures EncodeU32(SIGNATURE, Little) == [0x53, 0x54, 0x42, 0x31]
  {
  }
}
