/**
 * The LZW-style decoder of the trunk ArchiveCompression. A dictionary of at most 4096
 * codes maps each code to a byte string: the 256 roots stand for one byte each, and
 * every later code extends an earlier one by a single byte. An entry's data is a run
 * of chunks, each a u32 byte count and that many bytes of MSB-first codes whose width
 * grows with the dictionary; all chunks of an entry share one dictionary.
 *
 * CodeDictionary is an object whose item list and code length its methods update and
 * whose Decode writes a 4096-byte window backwards; Decompress is a nested loop over
 * chunks and codes. Each method is proved against a
 * function on values (Added, Grown, Line, CodeStep, CodeLoop, Chunk, Chunks), and the
 * lemmas at the end say what those functions mean: a code stands for the string of
 * the code it extends plus its own byte (Chain), the dictionary never exceeds 4095
 * items while decoding, and a successful decode yields exactly the entry's length.
 */
module Lzw {
  import opened Wrappers
  import opened ByteIO
  import opened Arith
  import opened BitReader

  /** CodeDictionary.Capacity, also the size of the decode window. */
  const CAPACITY: nat := 4096
  /** The one-byte codes Reset installs, and the code length it sets. */
  const ROOTS: nat := 256
  const ROOT_WIDTH: nat := 8

  /** An item: the code it extends (-1 for none) and the byte it adds. */
  datatype Item = Item(previousIndex: int, value: bv8)

  /** The dictionary as a value: its items and its code length. */
  datatype Dict = Dict(items: seq<Item>, codeLength: nat)

  /** The 256 roots: item i is byte i extending nothing. */
  function Roots(): seq<Item>
  {
    seq(ROOTS, i requires 0 <= i < ROOTS => Item(-1, i as bv8))
  }

  /** The dictionary after Reset. */
  function Fresh(): Dict
  {
    Dict(Roots(), ROOT_WIDTH)
  }

  /** Every item extends an earlier item or nothing. */
  ghost predicate WellFormed(items: seq<Item>)
  {
    forall k :: 0 <= k < |items| ==> -1 <= items[k].previousIndex < k
  }

  /**
   * Add(lastValue, previousIndex): a full list is InvalidOperation; the list indexer
   * rejects a previousIndex outside it; otherwise one item is appended.
   */
  function Added(d: Dict, lastValue: bv8, previousIndex: int): (r: Result<Dict>)
    ensures r.Ok? <==> |d.items| < CAPACITY && 0 <= previousIndex < |d.items|
    ensures |d.items| >= CAPACITY ==> r == Err(InvalidOperation)
    ensures r.Ok? ==> r.value.codeLength == d.codeLength && |r.value.items| == |d.items| + 1
  {
    if |d.items| >= CAPACITY then Err(InvalidOperation)
    else if previousIndex < 0 || previousIndex >= |d.items| then Err(ArgumentOutOfRange)
    else Ok(Dict(d.items + [Item(previousIndex, lastValue)], d.codeLength))
  }

  lemma Pow2Above(n: nat)
    ensures Pow2(n) > n
  {
    if n > 0 {
      Pow2Above(n - 1);
    }
  }

  lemma Pow2Twelve()
    ensures Pow2(12) == 4096 && Pow2(13) == 8192
  {
    Pow2Eight();
    assert Pow2(9) == 512;
    assert Pow2(10) == 1024;
    assert Pow2(11) == 2048;
  }

  /**
   * UpdateCodeLength's result: the first code length from `width` up whose power of
   * two exceeds `count`. It is `width` itself when that already fits, and otherwise
   * the smallest length that does.
   */
  function Grown(count: nat, width: nat): (r: nat)
    ensures r >= width && count < Pow2(r)
    ensures r == width || Pow2(r - 1) <= count
    decreases count - width
  {
    if count >= Pow2(width) then
      Pow2Above(width);
      Grown(count, width + 1)
    else
      width
  }

  /** A length `cap` whose power of two exceeds `count` bounds what UpdateCodeLength reaches. */
  lemma GrownBound(count: nat, width: nat, cap: nat)
    requires width <= cap && count < Pow2(cap)
    ensures Grown(count, width) <= cap
  {
    var r := Grown(count, width);
    if r > cap {
      Pow2Mono(cap, r - 1);
    }
  }

  /** The dictionary after UpdateCodeLength. */
  function Updated(d: Dict): Dict
  {
    Dict(d.items, Grown(|d.items|, d.codeLength))
  }

  lemma GrownStep(count: nat, width: nat)
    requires count >= Pow2(width)
    ensures Grown(count, width) == Grown(count, width + 1) && width < count
  {
    Pow2Above(width);
  }

  lemma GrownStop(count: nat, width: nat)
    requires count < Pow2(width)
    ensures Grown(count, width) == width
  {
  }

  /** Up to Capacity items, UpdateCodeLength stays at or below 13. */
  lemma GrownThirteen(count: nat, width: nat)
    requires count <= CAPACITY && width <= 13
    ensures Grown(count, width) <= 13
  {
    Pow2Twelve();
    GrownBound(count, width, 13);
  }

  /** Below Capacity - 1 items, UpdateCodeLength stays at or below 12. */
  lemma GrownTwelve(count: nat, width: nat)
    requires count + 1 < CAPACITY && width <= 12
    ensures Grown(count, width) <= 12
  {
    Pow2Twelve();
    GrownBound(count, width, 12);
  }

  /**
   * Decode's backwards walk from `index` with `room` window bytes left: the bytes of
   * the chain, root first. Running out of room is InvalidOperation, checked before the
   * item is fetched; an index outside the list is the indexer's ArgumentOutOfRange.
   */
  function Expand(items: seq<Item>, index: int, room: nat): (r: Result<Bytes>)
    ensures r.Ok? ==> |r.value| <= room
    ensures r.Ok? && index != -1 ==>
      0 <= index < |items| && |r.value| >= 1 && r.value[|r.value| - 1] == items[index].value
    decreases room
  {
    if index == -1 then Ok([])
    else if room == 0 then Err(InvalidOperation)
    else if index < 0 || index >= |items| then Err(ArgumentOutOfRange)
    else
      var rest :- Expand(items, items[index].previousIndex, room - 1);
      Ok(rest + [items[index].value])
  }

  /**
   * Decode(index) with its 4096-byte window. Code -1 writes nothing, so the read of
   * lastValue at the write position falls one past the window.
   */
  function Line(items: seq<Item>, index: int): (r: Result<Bytes>)
    ensures r.Ok? ==> 1 <= |r.value| <= CAPACITY
  {
    if index == -1 then Err(IndexOutOfRange) else Expand(items, index, CAPACITY)
  }

  /** `r` followed by `s` when it succeeded. */
  function Then(r: Result<Bytes>, s: Bytes): Result<Bytes>
  {
    if r.Ok? then Ok(r.value + s) else r
  }

  lemma ThenNil(r: Result<Bytes>)
    ensures Then(r, []) == r
  {
    if r.Ok? {
      assert r.value + [] == r.value;
    }
  }

  lemma ThenThen(r: Result<Bytes>, s: Bytes, t: Bytes)
    ensures Then(Then(r, s), t) == Then(r, s + t)
  {
    if r.Ok? {
      assert r.value + s + t == r.value + (s + t);
    }
  }

  /** One step of the backwards walk: the item's byte goes in front of what is written. */
  lemma ExpandStep(items: seq<Item>, i: int, room: nat, written: Bytes)
    requires 0 <= i < |items|
    ensures Then(Expand(items, i, room + 1), written) ==
      Then(Expand(items, items[i].previousIndex, room), [items[i].value] + written)
  {
    ThenThen(Expand(items, items[i].previousIndex, room), [items[i].value], written);
  }

  // ---------------------------------------------------------------------------
  // The dictionary object

  class CodeDictionary {
    var items: seq<Item>
    var codeLength: nat
    const window: array<bv8>

    ghost function Value(): Dict
      reads this
    {
      Dict(items, codeLength)
    }

    /**
     * The window has Capacity bytes; Add keeps the list at Capacity at most, so
     * UpdateCodeLength never passes 13 and `1 << CodeLength` is 2^CodeLength.
     */
    ghost predicate Valid()
      reads this
    {
      window.Length == CAPACITY && |items| <= CAPACITY && codeLength <= 13
    }

    constructor ()
      ensures Valid() && Value() == Fresh() && fresh(window)
    {
      items := [];
      codeLength := 0;
      window := new bv8[CAPACITY];
      new;
      Reset();
    }

    /** Reset: the 256 roots, in byte order, and code length 8. */
    method Reset()
      requires window.Length == CAPACITY
      modifies this`items, this`codeLength
      ensures Valid() && Value() == Fresh()
    {
      var roots: seq<Item> := [];
      for i := 0 to ROOTS
        invariant roots == Roots()[..i]
      {
        roots := roots + [Item(-1, i as bv8)];
      }
      items := roots;
      codeLength := ROOT_WIDTH;
    }

    /** Add: fails as Added says and then changes nothing; otherwise appends one item. */
    method Add(lastValue: bv8, previousIndex: int) returns (r: Result<()>)
      requires Valid()
      modifies this`items
      ensures Valid()
      ensures match Added(old(Value()), lastValue, previousIndex)
        case Ok(d) => r.Ok? && Value() == d
        case Err(e) => r == Err(e) && items == old(items)
    {
      if |items| >= CAPACITY {
        return Err(InvalidOperation);
      }
      if previousIndex < 0 || previousIndex >= |items| {
        return Err(ArgumentOutOfRange);
      }
      var previousItem := items[previousIndex];
      items := items[previousIndex := previousItem];
      items := items + [Item(previousIndex, lastValue)];
      return Ok(());
    }

    /** UpdateCodeLength: grows the code length until 2^CodeLength exceeds Count. */
    method UpdateCodeLength()
      requires Valid()
      modifies this`codeLength
      ensures Valid() && Value() == Updated(old(Value()))
    {
      GrownThirteen(|items|, codeLength);
      var count := |items|;
      ghost var target := Grown(count, codeLength);
      while count >= Pow2(codeLength)
        invariant codeLength <= target == Grown(count, codeLength)
        decreases count - codeLength
      {
        GrownStep(count, codeLength);
        codeLength := codeLength + 1;
      }
      GrownStop(count, codeLength);
    }

    /**
     * Decode: walks the chain from `index` backwards into the window, then returns
     * the written bytes and the first of them, read at the write position.
     */
    method Decode(index: int) returns (r: Result<(Bytes, bv8)>)
      requires Valid()
      modifies window
      ensures var l := Line(items, index);
        (r.Ok? <==> l.Ok?) &&
        (r.Ok? ==> r.value.0 == l.value && r.value.1 == l.value[0]) &&
        (r.Err? ==> r.error == l.error)
    {
      var walked := WriteChain(index);
      if walked.Err? {
        return Err(walked.error);
      }
      var writePosition := walked.value;
      if writePosition >= window.Length {
        return Err(IndexOutOfRange);
      }
      var lastValue := window[writePosition];
      var bytes := window[writePosition..];
      return Ok((bytes, lastValue));
    }

    /**
     * Decode's loop: each item's byte goes one place further back in the window,
     * until the chain ends at -1. The result is the final write position.
     */
    method WriteChain(index: int) returns (r: Result<nat>)
      requires Valid()
      modifies window
      ensures r.Ok? ==> r.value <= CAPACITY && (r.value == CAPACITY <==> index == -1)
      ensures index != -1 ==>
        Expand(items, index, CAPACITY) == if r.Ok? then Ok(window[r.value..]) else Err(r.error)
      ensures index == -1 ==> r.Ok?
    {
      var writePosition := window.Length;
      var i := index;
      ghost var written: Bytes := [];
      ghost var whole := Expand(items, index, CAPACITY);
      ThenNil(whole);
      while i != -1
        invariant 0 <= writePosition <= CAPACITY
        invariant writePosition == CAPACITY ==> i == index
        invariant index != -1 || writePosition == CAPACITY
        invariant window[writePosition..] == written
        invariant index != -1 ==> whole == Then(Expand(items, i, writePosition), written)
        decreases writePosition
      {
        writePosition := writePosition - 1;
        if writePosition < 0 {
          return Err(InvalidOperation);
        }
        if i < 0 || i >= |items| {
          return Err(ArgumentOutOfRange);
        }
        var item := items[i];
        window[writePosition] := item.value;
        ExpandStep(items, i, writePosition, written);
        written := [item.value] + written;
        assert window[writePosition..] == written;
        i := item.previousIndex;
      }
      assert [] + written == written;
      return Ok(writePosition);
    }
  }

  // ---------------------------------------------------------------------------
  // Decompress as functions on values

  /** The width bounds that hold between codes: at least the root width, at most 12. */
  predicate Width(d: Dict)
  {
    ROOT_WIDTH <= d.codeLength <= 12
  }

  /**
   * ReadInt32(width) on a chunk's bits after `consumed` of them: the next `width`
   * bits as a number, or EndOfStream.
   */
  function Code(bits: seq<bool>, consumed: nat, width: nat): (r: Result<int>)
    ensures r.Ok? <==> consumed + width <= |bits|
    ensures r.Err? ==> r.error == EndOfStream
    ensures r.Ok? ==> 0 <= r.value < Pow2(width)
  {
    if consumed + width <= |bits| then
      BitsAtValue(bits, consumed, width);
      Ok(BitsAt(bits, consumed, width))
    else
      Err(EndOfStream)
  }

  /** The decoder between two codes of a chunk. */
  datatype Codes = Codes(dict: Dict, consumed: nat, previousIndex: int, lastValue: bv8, output: Bytes)

  /**
   * One pass of the inner loop. Near capacity the dictionary is reset and a code is
   * read at the root width as a fresh start; otherwise the code length is updated
   * and a code read and applied.
   */
  function CodeStep(bits: seq<bool>, st: Codes): (r: Result<Codes>)
    requires Width(st.dict)
    ensures r.Ok? ==>
      st.consumed < r.value.consumed <= |bits| && Width(r.value.dict) && |r.value.dict.items| < CAPACITY
  {
    if |st.dict.items| + 1 >= CAPACITY then Restart(bits, st) else Extend(bits, st)
  }

  /** The reset branch: a fresh dictionary and a code at the root width. */
  function Restart(bits: seq<bool>, st: Codes): (r: Result<Codes>)
    ensures r.Ok? ==>
      st.consumed < r.value.consumed <= |bits| && Width(r.value.dict) && |r.value.dict.items| < CAPACITY
  {
    var d := Fresh();
    var code :- Code(bits, st.consumed, d.codeLength);
    var line :- Line(d.items, code);
    Ok(Codes(d, st.consumed + d.codeLength, code, line[0], st.output + line))
  }

  /** The growing branch: UpdateCodeLength, then a code at the new length. */
  function Extend(bits: seq<bool>, st: Codes): (r: Result<Codes>)
    requires Width(st.dict) && |st.dict.items| + 1 < CAPACITY
    ensures r.Ok? ==>
      st.consumed < r.value.consumed <= |bits| && Width(r.value.dict) && |r.value.dict.items| < CAPACITY
  {
    var d := Updated(st.dict);
    GrownTwelve(|st.dict.items|, st.dict.codeLength);
    var index :- Code(bits, st.consumed, d.codeLength);
    Applied(d, index, st.consumed + d.codeLength, st.previousIndex, st.lastValue, st.output)
  }

  /** Extend, once its code has been read. */
  lemma ExtendRead(bits: seq<bool>, st: Codes, index: int)
    requires Width(st.dict) && |st.dict.items| + 1 < CAPACITY
    requires Code(bits, st.consumed, Updated(st.dict).codeLength) == Ok(index)
    ensures var d := Updated(st.dict);
      Extend(bits, st) == Applied(d, index, st.consumed + d.codeLength, st.previousIndex, st.lastValue, st.output)
  {
  }

  /**
   * A code read in the growing branch: one equal to Count first adds (lastValue,
   * previousIndex) and is then decoded; one above Count is InvalidOperation; any
   * other is decoded and then (its first byte, previousIndex) is added.
   */
  function Applied(d: Dict, index: int, consumed: nat, previousIndex: int, lastValue: bv8, output: Bytes): (r: Result<Codes>)
    requires |d.items| + 1 < CAPACITY
    ensures r.Ok? ==>
      r.value.dict.codeLength == d.codeLength && |r.value.dict.items| < CAPACITY && r.value.consumed == consumed
  {
    if index == |d.items| then
      var added :- if previousIndex != -1 then Added(d, lastValue, previousIndex) else Ok(d);
      var line :- Line(added.items, index);
      Ok(Codes(added, consumed, index, line[0], output + line))
    else if index > |d.items| then
      Err(InvalidOperation)
    else
      var line :- Line(d.items, index);
      var added :- if previousIndex != -1 then Added(d, line[0], previousIndex) else Ok(d);
      Ok(Codes(added, consumed, index, line[0], output + line))
  }

  /**
   * The inner loop: passes while the reader's byte position is below its length.
   * The reader buffers fewer than 8 bits between codes, so that is while at least 8
   * bits are unread.
   */
  function CodeLoop(bits: seq<bool>, st: Codes): (r: Result<Codes>)
    requires Width(st.dict) && st.consumed <= |bits|
    ensures r.Ok? ==> Width(r.value.dict) && r.value.consumed <= |bits| < r.value.consumed + 8
    decreases |bits| - st.consumed
  {
    if st.consumed + 8 <= |bits| then
      var next :- CodeStep(bits, st);
      CodeLoop(bits, next)
    else
      Ok(st)
  }

  /** A chunk's byte count, then that many bytes; the result ends at the next chunk. */
  function ChunkBytes(input: Bytes, pos: nat, endian: Endian): (r: Result<(Bytes, nat)>)
    ensures r.Ok? ==> pos + 4 <= r.value.1 <= |input|
  {
    var n :- ReadU32N(input, pos, endian);
    ReadBytes(input, n.1, n.0)
  }

  /**
   * The codes of one chunk: the first at the current code length with no update and
   * no add, then the inner loop.
   */
  function ChunkCodes(bytes: Bytes, d: Dict, output: Bytes): (r: Result<Codes>)
    requires Width(d)
    ensures r.Ok? ==> Width(r.value.dict)
  {
    var bits := StreamBits(bytes);
    var first :- Code(bits, 0, d.codeLength);
    var line :- Line(d.items, first);
    CodeLoop(bits, Codes(d, d.codeLength, first, line[0], output + line))
  }

  /** One chunk: the dictionary, the output and the stream position after it. */
  function Chunk(input: Bytes, pos: nat, endian: Endian, d: Dict, output: Bytes): (r: Result<(Dict, Bytes, nat)>)
    requires Width(d)
    ensures r.Ok? ==> pos + 4 <= r.value.2 <= |input| && Width(r.value.0)
  {
    var b :- ChunkBytes(input, pos, endian);
    var st :- ChunkCodes(b.0, d, output);
    Ok((st.dict, st.output, b.1))
  }

  /**
   * The outer loop: chunks while fewer than `length` bytes are out; more than
   * `length` at the end is InvalidOperation. A success is exactly `length` bytes.
   */
  function Chunks(input: Bytes, pos: nat, endian: Endian, length: nat, d: Dict, output: Bytes): (r: Result<Bytes>)
    requires Width(d) && pos <= |input|
    ensures r.Ok? ==> |r.value| == length
    decreases |input| - pos
  {
    if |output| < length then
      var c :- Chunk(input, pos, endian, d, output);
      Chunks(input, c.2, endian, length, c.0, c.1)
    else if |output| > length then
      Err(InvalidOperation)
    else
      Ok(output)
  }

  /** Decompress: one fresh dictionary for the whole entry. */
  function Decompressed(input: Bytes, pos: nat, length: nat, endian: Endian): Result<Bytes>
    requires pos <= |input|
  {
    Chunks(input, pos, endian, length, Fresh(), [])
  }

  // ---------------------------------------------------------------------------
  // What the dictionary means

  /** The bytes a code stands for: those of the code it extends, then its own byte. */
  ghost function Chain(items: seq<Item>, index: nat): (s: Bytes)
    requires WellFormed(items) && index < |items|
    ensures 1 <= |s| <= index + 1 && s[|s| - 1] == items[index].value
    decreases index
  {
    var previous := items[index].previousIndex;
    if previous == -1 then [items[index].value] else Chain(items, previous) + [items[index].value]
  }

  /** With room for the whole chain, Decode's walk yields the code's string. */
  lemma {:induction false} ExpandChain(items: seq<Item>, index: nat, room: nat)
    requires WellFormed(items) && index < |items| && index < room
    ensures Expand(items, index, room) == Ok(Chain(items, index))
    decreases index
  {
    var previous := items[index].previousIndex;
    if previous == -1 {
      assert [] + [items[index].value] == [items[index].value];
    } else {
      ExpandChain(items, previous, room - 1);
    }
  }

  /**
   * In a well-formed dictionary of at most Capacity items, Decode succeeds on every
   * code in it: the chain never outgrows the window.
   */
  lemma LineChain(items: seq<Item>, index: nat)
    requires WellFormed(items) && index < |items| <= CAPACITY
    ensures Line(items, index) == Ok(Chain(items, index))
  {
    ExpandChain(items, index, CAPACITY);
  }

  /** An item that extends itself runs Decode out of window: InvalidOperation. */
  lemma {:induction false} ExpandCycle(items: seq<Item>, index: nat, room: nat)
    requires index < |items| && items[index].previousIndex == index
    ensures Expand(items, index, room) == Err(InvalidOperation)
    decreases room
  {
    if room > 0 {
      ExpandCycle(items, index, room - 1);
    }
  }

  /** The codes of a prefix of a well-formed list stand for the same strings in the list. */
  lemma {:induction false} ChainPrefix(items: seq<Item>, longer: seq<Item>, index: nat)
    requires WellFormed(longer) && |items| <= |longer| && items == longer[..|items|] && index < |items|
    ensures WellFormed(items) && Chain(items, index) == Chain(longer, index)
    decreases index
  {
    assert WellFormed(items) by {
      forall k | 0 <= k < |items|
        ensures -1 <= items[k].previousIndex < k
      {
        assert items[k] == longer[k];
      }
    }
    var previous := items[index].previousIndex;
    if previous != -1 {
      ChainPrefix(items, longer, previous);
    }
  }

  /**
   * Add keeps the dictionary well formed: the new item extends an existing code, so
   * one with a smaller index. The new code stands for previousIndex's string plus
   * lastValue, and every existing code keeps its string.
   */
  lemma AddedChain(d: Dict, lastValue: bv8, previousIndex: int)
    requires WellFormed(d.items) && Added(d, lastValue, previousIndex).Ok?
    ensures var e := Added(d, lastValue, previousIndex).value.items;
      WellFormed(e) && 0 <= e[|d.items|].previousIndex < |d.items| &&
      Chain(e, |d.items|) == Chain(d.items, previousIndex) + [lastValue] &&
      forall i :: 0 <= i < |d.items| ==> Chain(e, i) == Chain(d.items, i)
  {
    var e := Added(d, lastValue, previousIndex).value.items;
    assert WellFormed(e) by {
      forall k | 0 <= k < |e|
        ensures -1 <= e[k].previousIndex < k
      {
        if k < |d.items| {
          assert e[k] == d.items[k];
        }
      }
    }
    assert d.items == e[..|d.items|];
    forall i | 0 <= i < |d.items|
      ensures Chain(e, i) == Chain(d.items, i)
    {
      ChainPrefix(d.items, e, i);
    }
  }

  /** Reset's dictionary is well formed and each root stands for its own byte. */
  lemma FreshRoots()
    ensures WellFormed(Roots()) && |Roots()| == ROOTS && Width(Fresh())
    ensures forall b: nat :: b < ROOTS ==> Chain(Roots(), b) == [b as bv8]
  {
  }

  /**
   * The state between two codes while decoding: a well-formed dictionary of 256 to
   * 4095 items, the previous code in it, and lastValue its string's first byte.
   */
  ghost predicate Decoding(st: Codes)
  {
    Width(st.dict) && WellFormed(st.dict.items) && ROOTS <= |st.dict.items| < CAPACITY &&
    0 <= st.previousIndex < |st.dict.items| &&
    st.lastValue == Chain(st.dict.items, st.previousIndex)[0]
  }

  /**
   * The reset branch is a fresh start: the 256 roots, a code of 8 bits (so a root),
   * its one byte out. Only running out of bits can fail it.
   */
  lemma RestartDecodes(bits: seq<bool>, st: Codes)
    ensures var r := Restart(bits, st);
      (r.Ok? <==> st.consumed + ROOT_WIDTH <= |bits|) && (r.Err? ==> r.error == EndOfStream) &&
      (r.Ok? ==>
        Decoding(r.value) && r.value.dict == Fresh() && r.value.previousIndex < ROOTS &&
        r.value.consumed == st.consumed + ROOT_WIDTH &&
        r.value.output == st.output + Chain(Roots(), r.value.previousIndex))
  {
    FreshRoots();
    var code := Code(bits, st.consumed, ROOT_WIDTH);
    if code.Ok? {
      Pow2Eight();
      LineChain(Roots(), code.value);
    }
  }

  /**
   * A code applied in the growing branch, in a decoding state: above Count it is
   * InvalidOperation and nothing else fails. Otherwise the new item is (the first
   * byte of the code's string, previousIndex) and the output grows by that string.
   * For the code equal to Count, the string is previousIndex's plus its own first
   * byte.
   */
  lemma AppliedDecodes(d: Dict, index: int, consumed: nat, st: Codes)
    requires Width(d) && WellFormed(d.items) && ROOTS <= |d.items| && |d.items| + 1 < CAPACITY
    requires 0 <= st.previousIndex < |d.items| && st.lastValue == Chain(d.items, st.previousIndex)[0]
    requires 0 <= index
    ensures var r := Applied(d, index, consumed, st.previousIndex, st.lastValue, st.output);
      (r.Ok? <==> index <= |d.items|) && (r.Err? ==> r.error == InvalidOperation) &&
      (r.Ok? ==>
        Decoding(r.value) && r.value.previousIndex == index &&
        r.value.dict.items == d.items + [Item(st.previousIndex, r.value.lastValue)] &&
        r.value.output == st.output + Chain(r.value.dict.items, index)) &&
      (r.Ok? && index == |d.items| ==>
        Chain(r.value.dict.items, index) == Chain(d.items, st.previousIndex) + [st.lastValue])
  {
    var p := st.previousIndex;
    if index == |d.items| {
      AddedChain(d, st.lastValue, p);
      var e := Added(d, st.lastValue, p).value.items;
      LineChain(e, index);
      assert Chain(e, index)[0] == Chain(d.items, p)[0];
    } else if index < |d.items| {
      LineChain(d.items, index);
      var v := Chain(d.items, index)[0];
      AddedChain(d, v, p);
    }
  }

  /**
   * The growing branch in a decoding state fails with EndOfStream when the code's
   * bits are missing and with InvalidOperation exactly when the code is above Count.
   */
  lemma ExtendFails(bits: seq<bool>, st: Codes)
    requires Decoding(st) && |st.dict.items| + 1 < CAPACITY
    ensures var w := Grown(|st.dict.items|, st.dict.codeLength);
      var r := Extend(bits, st);
      (r == Err(EndOfStream) <==> |bits| < st.consumed + w) &&
      (r == Err(InvalidOperation) <==> st.consumed + w <= |bits| && BitsAt(bits, st.consumed, w) > |st.dict.items|) &&
      (r.Ok? || r == Err(EndOfStream) || r == Err(InvalidOperation))
  {
    var d := Updated(st.dict);
    GrownTwelve(|st.dict.items|, st.dict.codeLength);
    var code := Code(bits, st.consumed, d.codeLength);
    if code.Ok? {
      ExtendRead(bits, st, code.value);
      AppliedDecodes(d, code.value, st.consumed + d.codeLength, st);
    }
  }

  /**
   * A successful pass of the growing branch in a decoding state adds one item, (the
   * first byte of the code's string, previousIndex), and outputs the code's string.
   */
  lemma ExtendDecodes(bits: seq<bool>, st: Codes)
    requires Decoding(st) && |st.dict.items| + 1 < CAPACITY && Extend(bits, st).Ok?
    ensures var w := Grown(|st.dict.items|, st.dict.codeLength);
      var s := Extend(bits, st).value;
      Decoding(s) && s.consumed == st.consumed + w && s.previousIndex == BitsAt(bits, st.consumed, w) &&
      s.dict.items == st.dict.items + [Item(st.previousIndex, s.lastValue)] &&
      s.output == st.output + Chain(s.dict.items, s.previousIndex)
  {
    var d := Updated(st.dict);
    GrownTwelve(|st.dict.items|, st.dict.codeLength);
    var code := Code(bits, st.consumed, d.codeLength);
    ExtendRead(bits, st, code.value);
    AppliedDecodes(d, code.value, st.consumed + d.codeLength, st);
  }

  /** One pass keeps the decoding state and only fails for want of bits or a code above Count. */
  lemma StepDecodes(bits: seq<bool>, st: Codes)
    requires Decoding(st)
    ensures var r := CodeStep(bits, st);
      (r.Ok? ==> Decoding(r.value) && r.value.output == st.output + Chain(r.value.dict.items, r.value.previousIndex)) &&
      (r.Err? ==> r.error == EndOfStream || r.error == InvalidOperation)
  {
    if |st.dict.items| + 1 >= CAPACITY {
      RestartDecodes(bits, st);
    } else {
      ExtendFails(bits, st);
      if CodeStep(bits, st).Ok? {
        ExtendDecodes(bits, st);
      }
    }
  }

  /**
   * The inner loop keeps the decoding state, so Count stays at most 4095, Add never
   * fails and Decode never runs out of window; the output only grows.
   */
  lemma {:induction false} LoopDecodes(bits: seq<bool>, st: Codes)
    requires Decoding(st) && st.consumed <= |bits|
    ensures var r := CodeLoop(bits, st);
      (r.Ok? ==> Decoding(r.value) && |st.output| <= |r.value.output| && r.value.output[..|st.output|] == st.output) &&
      (r.Err? ==> r.error == EndOfStream || r.error == InvalidOperation)
    decreases |bits| - st.consumed
  {
    if st.consumed + 8 <= |bits| {
      StepDecodes(bits, st);
      var next := CodeStep(bits, st);
      if next.Ok? {
        LoopDecodes(bits, next.value);
        var out := CodeLoop(bits, next.value);
        if out.Ok? {
          assert out.value.output[..|st.output|] == next.value.output[..|next.value.output|][..|st.output|];
        }
      }
    }
  }

  /** Between chunks: a well-formed dictionary of 256 to 4095 items. */
  ghost predicate Between(d: Dict)
  {
    Width(d) && WellFormed(d.items) && ROOTS <= |d.items| < CAPACITY
  }

  /**
   * A chunk's codes: the first code, read with no update and no add, is
   * ArgumentOutOfRange exactly when it is not yet in the dictionary; after it only
   * EndOfStream and InvalidOperation can occur.
   */
  lemma ChunkCodesDecode(bytes: Bytes, d: Dict, output: Bytes)
    requires Between(d)
    ensures var bits := StreamBits(bytes);
      var r := ChunkCodes(bytes, d, output);
      (r == Err(ArgumentOutOfRange) <==> d.codeLength <= |bits| && BitsAt(bits, 0, d.codeLength) >= |d.items|) &&
      (r.Ok? ==> Between(r.value.dict) && |output| <= |r.value.output| && r.value.output[..|output|] == output) &&
      (r.Err? ==> r.error == EndOfStream || r.error == InvalidOperation || r.error == ArgumentOutOfRange)
  {
    var bits := StreamBits(bytes);
    var first := Code(bits, 0, d.codeLength);
    if first.Ok? && first.value < |d.items| {
      LineChain(d.items, first.value);
      var line := Chain(d.items, first.value);
      var st := Codes(d, d.codeLength, first.value, line[0], output + line);
      LoopDecodes(bits, st);
      var out := CodeLoop(bits, st);
      if out.Ok? {
        assert out.value.output[..|output|] == out.value.output[..|output + line|][..|output|];
      }
    }
  }

  /** Decompress fails only with EndOfStream, ArgumentOutOfRange or InvalidOperation. */
  lemma {:induction false} ChunksDecode(input: Bytes, pos: nat, endian: Endian, length: nat, d: Dict, output: Bytes)
    requires Between(d) && pos <= |input|
    ensures var r := Chunks(input, pos, endian, length, d, output);
      r.Err? ==> r.error == EndOfStream || r.error == InvalidOperation || r.error == ArgumentOutOfRange
    decreases |input| - pos
  {
    if |output| < length {
      var b := ChunkBytes(input, pos, endian);
      if b.Ok? {
        ChunkCodesDecode(b.value.0, d, output);
        var c := Chunk(input, pos, endian, d, output);
        if c.Ok? {
          ChunksDecode(input, c.value.2, endian, length, c.value.0, c.value.1);
        }
      }
    }
  }

  /**
   * A decompressed entry is exactly `length` bytes, and the only failures are
   * missing input, a chunk's first code outside the dictionary, a code above Count
   * and output beyond `length`.
   */
  lemma DecompressedDecodes(input: Bytes, pos: nat, length: nat, endian: Endian)
    requires pos <= |input|
    ensures var r := Decompressed(input, pos, length, endian);
      (r.Ok? ==> |r.value| == length) &&
      (r.Err? ==> r.error == EndOfStream || r.error == InvalidOperation || r.error == ArgumentOutOfRange)
  {
    FreshRoots();
    ChunksDecode(input, pos, endian, length, Fresh(), []);
  }

  // ---------------------------------------------------------------------------
  // Decompress: the loop over chunks and the loop over codes

  /** ArchiveCompression.Decompress for an entry of `length` bytes stored at `pos`. */
  method Decompress(input: Bytes, pos: nat, length: u32, endian: Endian) returns (r: Result<Bytes>)
    requires pos <= |input|
    ensures r == Decompressed(input, pos, length, endian)
  {
    var dictionary := new CodeDictionary();
    var remaining: int := length;
    var output: Bytes := [];
    var p := pos;
    while remaining > 0
      invariant dictionary.Valid() && Width(dictionary.Value()) && p <= |input|
      invariant fresh(dictionary.window)
      invariant remaining == length - |output|
      invariant Decompressed(input, pos, length, endian) ==
        Chunks(input, p, endian, length, dictionary.Value(), output)
      decreases |input| - p
    {
      var c := DecompressChunk(input, p, endian, dictionary, output);
      if c.Err? {
        return Err(c.error);
      }
      output, p := c.value.0, c.value.1;
      remaining := length - |output|;
    }
    if remaining < 0 {
      return Err(InvalidOperation);
    }
    return Ok(output);
  }

  /** One pass of the outer loop, as Chunk says. */
  method DecompressChunk(input: Bytes, pos: nat, endian: Endian, dictionary: CodeDictionary, output: Bytes)
    returns (r: Result<(Bytes, nat)>)
    requires dictionary.Valid() && Width(dictionary.Value()) && pos <= |input|
    modifies dictionary, dictionary.window
    ensures dictionary.Valid()
    ensures match Chunk(input, pos, endian, old(dictionary.Value()), output)
      case Ok(c) => r == Ok((c.1, c.2)) && dictionary.Value() == c.0
      case Err(e) => r == Err(e)
  {
    var b := ChunkBytes(input, pos, endian);
    if b.Err? {
      return Err(b.error);
    }
    var out := DecodeChunk(b.value.0, dictionary, output);
    if out.Err? {
      return Err(out.error);
    }
    return Ok((out.value, b.value.1));
  }

  /** The codes of one chunk's bytes, as ChunkCodes says. */
  method DecodeChunk(bytes: Bytes, dictionary: CodeDictionary, output: Bytes) returns (r: Result<Bytes>)
    requires dictionary.Valid() && Width(dictionary.Value())
    modifies dictionary, dictionary.window
    ensures dictionary.Valid()
    ensures match ChunkCodes(bytes, old(dictionary.Value()), output)
      case Ok(s) => r == Ok(s.output) && dictionary.Value() == s.dict
      case Err(e) => r == Err(e)
  {
    ghost var d := dictionary.Value();
    var reader := new BitReader(bytes);
    var first := reader.ReadInt32(dictionary.codeLength);
    if first.Err? {
      return Err(first.error);
    }
    var line := dictionary.Decode(first.value);
    if line.Err? {
      return Err(line.error);
    }
    ghost var start := Codes(d, d.codeLength, first.value, line.value.1, output + line.value.0);
    assert ChunkCodes(bytes, d, output) == CodeLoop(StreamBits(bytes), start);
    assert start == Codes(dictionary.Value(), reader.Consumed(), first.value, line.value.1, output + line.value.0);
    assert reader.buffer == bytes;
    r := DecodeCodes(reader, dictionary, first.value, line.value.1, output + line.value.0);
  }

  /**
   * The inner loop, as CodeLoop says. It ends with the reader drained to its
   * length, so Decompress's check for an undrained reader never fires.
   */
  method DecodeCodes(reader: BitReader, dictionary: CodeDictionary, previousIndex: int, lastValue: bv8, output: Bytes)
    returns (r: Result<Bytes>)
    requires reader.Valid() && reader.remainingBits <= 7
    requires dictionary.Valid() && Width(dictionary.Value())
    modifies reader`position, reader`remainingBits, reader`value, dictionary, dictionary.window
    ensures dictionary.Valid()
    ensures match CodeLoop(StreamBits(reader.buffer),
                           Codes(old(dictionary.Value()), old(reader.Consumed()), previousIndex, lastValue, output))
      case Ok(s) => r == Ok(s.output) && dictionary.Value() == s.dict && reader.position == reader.length
      case Err(e) => r == Err(e)
  {
    ghost var bits := StreamBits(reader.buffer);
    ghost var start := Codes(dictionary.Value(), reader.Consumed(), previousIndex, lastValue, output);
    var previous, last, out := previousIndex, lastValue, output;
    while reader.position < reader.length
      invariant reader.Valid() && reader.remainingBits <= 7
      invariant dictionary.Valid() && Width(dictionary.Value())
      invariant CodeLoop(bits, start) ==
        CodeLoop(bits, Codes(dictionary.Value(), reader.Consumed(), previous, last, out))
      decreases 8 * reader.length - reader.Consumed()
    {
      var step := DecodeCode(reader, dictionary, previous, last, out);
      if step.Err? {
        return Err(step.error);
      }
      previous, last, out := step.value.0, step.value.1, step.value.2;
    }
    return Ok(out);
  }

  /** One pass of the inner loop, as CodeStep says. */
  method DecodeCode(reader: BitReader, dictionary: CodeDictionary, previousIndex: int, lastValue: bv8, output: Bytes)
    returns (r: Result<(int, bv8, Bytes)>)
    requires reader.Valid() && reader.remainingBits <= 7
    requires dictionary.Valid() && Width(dictionary.Value())
    modifies reader`position, reader`remainingBits, reader`value, dictionary, dictionary.window
    ensures reader.Valid() && dictionary.Valid()
    ensures match CodeStep(StreamBits(reader.buffer),
                           Codes(old(dictionary.Value()), old(reader.Consumed()), previousIndex, lastValue, output))
      case Ok(s) => r == Ok((s.previousIndex, s.lastValue, s.output)) && reader.remainingBits <= 7 &&
        s.dict == dictionary.Value() && s.consumed == reader.Consumed()
      case Err(e) => r == Err(e)
  {
    if |dictionary.items| + 1 >= CAPACITY {
      r := RestartCode(reader, dictionary, previousIndex, lastValue, output);
    } else {
      r := ExtendCode(reader, dictionary, previousIndex, lastValue, output);
    }
  }

  /** The reset branch, as Restart says. */
  method RestartCode(reader: BitReader, dictionary: CodeDictionary, previousIndex: int, lastValue: bv8, output: Bytes)
    returns (r: Result<(int, bv8, Bytes)>)
    requires reader.Valid() && reader.remainingBits <= 7 && dictionary.window.Length == CAPACITY
    modifies reader`position, reader`remainingBits, reader`value, dictionary, dictionary.window
    ensures reader.Valid() && dictionary.Valid()
    ensures match Restart(StreamBits(reader.buffer),
                          Codes(old(dictionary.Value()), old(reader.Consumed()), previousIndex, lastValue, output))
      case Ok(s) => r == Ok((s.previousIndex, s.lastValue, s.output)) && reader.remainingBits <= 7 &&
        s.dict == dictionary.Value() && s.consumed == reader.Consumed()
      case Err(e) => r == Err(e)
  {
    dictionary.Reset();
    var code := reader.ReadInt32(dictionary.codeLength);
    if code.Err? {
      return Err(code.error);
    }
    var line := dictionary.Decode(code.value);
    if line.Err? {
      return Err(line.error);
    }
    return Ok((code.value, line.value.1, output + line.value.0));
  }

  /** The growing branch, as Extend says. */
  method ExtendCode(reader: BitReader, dictionary: CodeDictionary, previousIndex: int, lastValue: bv8, output: Bytes)
    returns (r: Result<(int, bv8, Bytes)>)
    requires reader.Valid() && reader.remainingBits <= 7
    requires dictionary.Valid() && Width(dictionary.Value()) && |dictionary.items| + 1 < CAPACITY
    modifies reader`position, reader`remainingBits, reader`value, dictionary, dictionary.window
    ensures reader.Valid() && dictionary.Valid()
    ensures match Extend(StreamBits(reader.buffer),
                         Codes(old(dictionary.Value()), old(reader.Consumed()), previousIndex, lastValue, output))
      case Ok(s) => r == Ok((s.previousIndex, s.lastValue, s.output)) && reader.remainingBits <= 7 &&
        s.dict == dictionary.Value() && s.consumed == reader.Consumed()
      case Err(e) => r == Err(e)
  {
    ghost var st := Codes(dictionary.Value(), reader.Consumed(), previousIndex, lastValue, output);
    GrownTwelve(|dictionary.items|, dictionary.codeLength);
    dictionary.UpdateCodeLength();
    var index := reader.ReadInt32(dictionary.codeLength);
    if index.Err? {
      return Err(index.error);
    }
    ExtendRead(StreamBits(reader.buffer), st, index.value);
    r := ApplyCode(dictionary, index.value, reader.Consumed(), previousIndex, lastValue, output);
  }

  /** A code read in the growing branch, as Applied says. */
  method ApplyCode(dictionary: CodeDictionary, index: int, ghost consumed: nat, previousIndex: int, lastValue: bv8,
                   output: Bytes) returns (r: Result<(int, bv8, Bytes)>)
    requires dictionary.Valid() && |dictionary.items| + 1 < CAPACITY
    modifies dictionary, dictionary.window
    ensures dictionary.Valid()
    ensures match Applied(old(dictionary.Value()), index, consumed, previousIndex, lastValue, output)
      case Ok(s) => r == Ok((s.previousIndex, s.lastValue, s.output)) && s.dict == dictionary.Value()
      case Err(e) => r == Err(e)
  {
    var line: Result<(Bytes, bv8)>;
    if index == |dictionary.items| {
      if previousIndex != -1 {
        var added := dictionary.Add(lastValue, previousIndex);
        if added.Err? {
          return Err(added.error);
        }
      }
      line := dictionary.Decode(index);
      if line.Err? {
        return Err(line.error);
      }
    } else {
      if index > |dictionary.items| {
        return Err(InvalidOperation);
      }
      line := dictionary.Decode(index);
      if line.Err? {
        return Err(line.error);
      }
      if previousIndex != -1 {
        var added := dictionary.Add(line.value.1, previousIndex);
        if added.Err? {
          return Err(added.error);
        }
      }
    }
    return Ok((index, line.value.1, output + line.value.0));
  }
}
