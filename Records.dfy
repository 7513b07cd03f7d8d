/**
 * The shape shared by the length-prefixed record codecs: a count, then that many
 * records, each read by its own reader and, where the format demands it, checked
 * against its index. A .NET array reference that may be null is `Option<seq<T>>`;
 * the writers emit a null array as a count of 0.
 */
module Records {
  import opened Wrappers
  import opened ByteIO
  import opened Arith

  /** A record reader at a cursor: the record and the cursor after it. */
  type Reader<T> = (Bytes, nat) -> Result<(T, nat)>

  /** A record writer: its bytes, or the exception writing it raises. */
  type Writer<!T> = T -> Result<Bytes>

  /** A check of the record read at an index. */
  type Check<!T> = (nat, T) -> Result<()>

  /** Accepts every record: for arrays whose records are not validated. */
  function NoCheck<T>(): Check<T>
  {
    (i: nat, x: T) => Ok(())
  }

  /** The items of an array reference; null has none. */
  function ItemsOf<T>(a: Option<seq<T>>): (r: seq<T>)
    ensures a.None? ==> r == []
    ensures a.Some? ==> r == a.value
  {
    if a.None? then [] else a.value
  }

  /**
   * Records i .. n-1 read one after the other from `pos`, each checked as it is read;
   * the first failing read or check is the outcome, and the records before it are lost.
   */
  function ReadMany<T>(s: Bytes, pos: nat, i: nat, n: nat, read: Reader<T>, check: Check<T>): (r: Result<(seq<T>, nat)>)
    ensures r.Ok? ==> |r.value.0| == if i <= n then n - i else 0
    decreases n - i, 1
  {
    if i >= n then Ok(([], pos)) else ReadNext(s, pos, i, n, read, check)
  }

  /** Record i read and checked, then the records after it. */
  function ReadNext<T>(s: Bytes, pos: nat, i: nat, n: nat, read: Reader<T>, check: Check<T>): (r: Result<(seq<T>, nat)>)
    requires i < n
    ensures r.Ok? ==> |r.value.0| == n - i
    decreases n - i, 0
  {
    var first :- read(s, pos);
    var valid :- check(i, first.0);
    var rest :- ReadMany(s, first.1, i + 1, n, read, check);
    Ok(([first.0] + rest.0, rest.1))
  }

  /** The records written one after the other; the first failing write is the outcome. */
  function WriteMany<T>(items: seq<T>, write: Writer<T>): (r: Result<Bytes>)
    decreases |items|, 1
  {
    if items == [] then Ok([]) else WriteNext(items, write)
  }

  /** The first record written, then the others. */
  function WriteNext<T>(items: seq<T>, write: Writer<T>): (r: Result<Bytes>)
    requires items != []
    decreases |items|, 0
  {
    var head :- write(items[0]);
    var tail :- WriteMany(items[1..], write);
    Ok(head + tail)
  }

  /** Every record of an array that reads completely passed its check. */
  lemma {:induction false} ReadManyChecked<T>(s: Bytes, pos: nat, i: nat, n: nat, read: Reader<T>, check: Check<T>)
    requires ReadMany(s, pos, i, n, read, check).Ok?
    ensures var xs := ReadMany(s, pos, i, n, read, check).value.0;
      forall k :: 0 <= k < |xs| ==> check(i + k, xs[k]).Ok?
    decreases n - i
  {
    if i < n {
      var first := read(s, pos).value;
      ReadManyChecked(s, first.1, i + 1, n, read, check);
      var xs := ReadMany(s, pos, i, n, read, check).value.0;
      var rest := ReadMany(s, first.1, i + 1, n, read, check).value.0;
      assert xs == [first.0] + rest;
      forall k | 0 <= k < |xs|
        ensures check(i + k, xs[k]).Ok?
      {
        if k > 0 {
          assert xs[k] == rest[k - 1] && i + k == i + 1 + (k - 1);
        }
      }
    }
  }

  /** Every record of an array that reads completely has what every successful read of one guarantees. */
  lemma {:induction false} ReadManyEach<T>(s: Bytes, pos: nat, i: nat, n: nat, read: Reader<T>, check: Check<T>, good: T -> bool)
    requires forall s': Bytes, p': nat :: read(s', p').Ok? ==> good(read(s', p').value.0)
    requires ReadMany(s, pos, i, n, read, check).Ok?
    ensures forall x <- ReadMany(s, pos, i, n, read, check).value.0 :: good(x)
    decreases n - i
  {
    if i < n {
      var first := read(s, pos).value;
      ReadManyEach(s, first.1, i + 1, n, read, check, good);
      assert ReadMany(s, pos, i, n, read, check).value.0 == [first.0] + ReadMany(s, first.1, i + 1, n, read, check).value.0;
    }
  }

  /** An array writes completely exactly when each of its records does. */
  lemma {:induction false} WriteManyOk<T>(items: seq<T>, write: Writer<T>)
    ensures WriteMany(items, write).Ok? <==> forall k :: 0 <= k < |items| ==> write(items[k]).Ok?
    decreases |items|
  {
    if items != [] {
      WriteManyOk(items[1..], write);
      assert forall k :: 1 <= k < |items| ==> items[k] == items[1..][k - 1];
    }
  }

  /** An array whose records can only fail with one exception fails, if it does, with that one. */
  lemma {:induction false} WriteManyError<T>(items: seq<T>, write: Writer<T>, err: Error)
    requires forall k :: 0 <= k < |items| && write(items[k]).Err? ==> write(items[k]).error == err
    ensures WriteMany(items, write).Err? ==> WriteMany(items, write).error == err
    decreases |items|
  {
    if items != [] {
      assert forall k :: 0 <= k < |items[1..]| ==> items[1..][k] == items[k + 1];
      WriteManyError(items[1..], write, err);
    }
  }

  /** Two arrays whose records write alike write alike. */
  lemma {:induction false} WriteManyAlike<T>(xs: seq<T>, ys: seq<T>, write: Writer<T>)
    requires |xs| == |ys| && forall k :: 0 <= k < |xs| ==> write(xs[k]) == write(ys[k])
    ensures WriteMany(xs, write) == WriteMany(ys, write)
    decreases |xs|
  {
    if xs != [] {
      assert forall k :: 0 <= k < |xs[1..]| ==> xs[1..][k] == xs[k + 1] && ys[1..][k] == ys[k + 1];
      WriteManyAlike(xs[1..], ys[1..], write);
    }
  }

  /** A count written by WriteValueS32 from the array length, then the records. */
  function WriteCounted<T>(items: Option<seq<T>>, write: Writer<T>, e: Endian): (r: Result<Bytes>)
    ensures items.None? ==> r == Ok(EncodeCount(0, e))
    ensures r.Ok? <==> WriteMany(ItemsOf(items), write).Ok?
  {
    var body :- WriteMany(ItemsOf(items), write);
    assert items.None? ==> body == [] && EncodeCount(0, e) + body == EncodeCount(0, e);
    Ok(EncodeCount(|ItemsOf(items)|, e) + body)
  }

  /** A one-record array: its count, then the record's bytes. */
  lemma WriteCountedOne<T>(x: T, write: Writer<T>, e: Endian)
    requires write(x).Ok?
    ensures WriteCounted(Some([x]), write, e) == Ok(EncodeCount(1, e) + write(x).value)
  {
    var head := write(x).value;
    assert [x][1..] == [];
    assert WriteMany([x][1..], write) == Ok([]);
    assert WriteNext([x], write) == Ok(head + []);
    assert head + [] == head;
    assert WriteMany(ItemsOf(Some([x])), write) == Ok(head);
  }

  /** An empty array: its count alone. */
  lemma WriteCountedEmpty<T>(write: Writer<T>, e: Endian)
    ensures WriteCounted(Some([]), write, e) == Ok(EncodeCount(0, e))
  {
    assert EncodeCount(0, e) + [] == EncodeCount(0, e);
  }

  /** The written array starts with its length, as four bytes. */
  lemma CountedPrefix<T>(items: Option<seq<T>>, write: Writer<T>, e: Endian)
    requires WriteCounted(items, write, e).Ok?
    ensures var w := WriteCounted(items, write, e).value;
      |w| >= 4 && w[..4] == EncodeCount(|ItemsOf(items)|, e)
  {
    var body := WriteMany(ItemsOf(items), write).value;
    assert (EncodeCount(|ItemsOf(items)|, e) + body)[..4] == EncodeCount(|ItemsOf(items)|, e);
  }

  /**
   * A u32 count checked against a bound before any record is read (the animation
   * readers' `if (count >= max) throw new FormatException(msg)`), then the records.
   */
  function ReadBounded<T>(s: Bytes, pos: nat, e: Endian, max: nat, msg: string, read: Reader<T>, check: Check<T>)
    : (r: Result<(seq<T>, nat)>)
    ensures r.Ok? ==> |r.value.0| < max
  {
    var count :- ReadU32N(s, pos, e);
    if count.0 >= max then Err(Format(msg)) else ReadMany(s, count.1, 0, count.0, read, check)
  }

  /** A u32 count with no bound of its own, then that many records. */
  function ReadCounted<T>(s: Bytes, pos: nat, e: Endian, read: Reader<T>, check: Check<T>): (r: Result<(seq<T>, nat)>)
  {
    var count :- ReadU32N(s, pos, e);
    ReadMany(s, count.1, 0, count.0, read, check)
  }

  /** A count at or over the bound is rejected, whatever follows it. */
  lemma BoundExceeded<T>(s: Bytes, pos: nat, e: Endian, max: nat, msg: string, read: Reader<T>, check: Check<T>)
    requires pos + 4 <= |s| && DecodeU32N(s[pos..pos + 4], e) >= max
    ensures ReadBounded(s, pos, e, max, msg, read, check) == Err(Format(msg))
  {
  }

  /** The bytes of a written non-null array: its count, then its records. */
  lemma CountedBytes<T>(items: Option<seq<T>>, write: Writer<T>, e: Endian)
    requires items.Some? && WriteCounted(items, write, e).Ok?
    ensures WriteMany(items.value, write).Ok?
    ensures WriteCounted(items, write, e).value == EncodeCount(|items.value|, e) + WriteMany(items.value, write).value
  {
  }

  // ---------------------------------------------------------------------------
  // The read and write loops, as methods

  /** The records read so far in front of the outcome of reading the rest. */
  function After<T>(done: seq<T>, rest: Result<(seq<T>, nat)>): (r: Result<(seq<T>, nat)>)
    ensures r.Ok? <==> rest.Ok?
  {
    match rest
    case Ok((xs, q)) => Ok((done + xs, q))
    case Err(err) => Err(err)
  }

  /** One record read moves it from the rest to the records already read. */
  lemma ReadStep<T>(s: Bytes, pos: nat, i: nat, n: nat, read: Reader<T>, check: Check<T>, done: seq<T>)
    requires i < n && read(s, pos).Ok? && check(i, read(s, pos).value.0).Ok?
    ensures After(done, ReadMany(s, pos, i, n, read, check))
         == After(done + [read(s, pos).value.0], ReadMany(s, read(s, pos).value.1, i + 1, n, read, check))
  {
    var rest := ReadMany(s, read(s, pos).value.1, i + 1, n, read, check);
    if rest.Ok? {
      assert done + ([read(s, pos).value.0] + rest.value.0) == done + [read(s, pos).value.0] + rest.value.0;
    }
  }

  /** ReadStep as a loop takes it: what is left to read, after one more record. */
  lemma ReadOn<T>(s: Bytes, pos: nat, i: nat, n: nat, read: Reader<T>, check: Check<T>, done: seq<T>,
                  whole: Result<(seq<T>, nat)>, x: T, next: nat)
    requires i < n && read(s, pos) == Ok((x, next)) && check(i, x).Ok?
    requires whole == After(done, ReadMany(s, pos, i, n, read, check))
    ensures whole == After(done + [x], ReadMany(s, next, i + 1, n, read, check))
  {
    ReadStep(s, pos, i, n, read, check, done);
  }

  /** Before the loop nothing is read and everything is still to read. */
  lemma ReadBegins<T>(s: Bytes, pos: nat, n: nat, read: Reader<T>, check: Check<T>)
    ensures ReadMany(s, pos, 0, n, read, check) == After([], ReadMany(s, pos, 0, n, read, check))
  {
    match ReadMany(s, pos, 0, n, read, check) {
      case Ok((xs, q)) => assert [] + xs == xs;
      case Err(_) =>
    }
  }

  /** Once all n records are read, the loop's result is the records read and the position reached. */
  lemma ReadEnds<T>(s: Bytes, pos: nat, i: nat, n: nat, read: Reader<T>, check: Check<T>, done: seq<T>,
                    whole: Result<(seq<T>, nat)>)
    requires i >= n && whole == After(done, ReadMany(s, pos, i, n, read, check))
    ensures whole == Ok((done, pos))
  {
    assert done + [] == done;
  }

  /** A record that fails to read stops the loop with its exception. */
  lemma ReadStops<T>(s: Bytes, pos: nat, i: nat, n: nat, read: Reader<T>, check: Check<T>, done: seq<T>,
                     whole: Result<(seq<T>, nat)>)
    requires i < n && read(s, pos).Err?
    requires whole == After(done, ReadMany(s, pos, i, n, read, check))
    ensures whole == Err(read(s, pos).error)
  {
  }

  /**
   * The array-filling loop `for (i = 0; i < n; i++) items[i] = read(...)`: the records
   * it fills, or the exception that stops it.
   */
  method ReadArray<T>(s: Bytes, pos: nat, n: nat, read: Reader<T>, check: Check<T>) returns (r: Result<(seq<T>, nat)>)
    ensures r == ReadMany(s, pos, 0, n, read, check)
  {
    var items: seq<T> := [];
    var p := pos;
    var i := 0;
    match ReadMany(s, pos, 0, n, read, check) {
      case Ok((xs, q)) => assert [] + xs == xs;
      case Err(_) =>
    }
    while i < n
      invariant i <= n
      invariant ReadMany(s, pos, 0, n, read, check) == After(items, ReadMany(s, p, i, n, read, check))
      decreases n - i
    {
      var next := read(s, p);
      if next.Err? {
        return Err(next.error);
      }
      var valid := check(i, next.value.0);
      if valid.Err? {
        return Err(valid.error);
      }
      ReadStep(s, p, i, n, read, check, items);
      items := items + [next.value.0];
      p := next.value.1;
      i := i + 1;
    }
    assert items + [] == items;
    r := Ok((items, p));
  }

  /** The bounded array-reading loop: the count, its bound, then ReadArray. */
  method ReadBoundedArray<T>(s: Bytes, pos: nat, e: Endian, max: nat, msg: string, read: Reader<T>, check: Check<T>)
    returns (r: Result<(seq<T>, nat)>)
    ensures r == ReadBounded(s, pos, e, max, msg, read, check)
  {
    var count := ReadU32N(s, pos, e);
    if count.Err? {
      return Err(count.error);
    }
    if count.value.0 >= max {
      return Err(Format(msg));
    }
    r := ReadArray(s, count.value.1, count.value.0, read, check);
  }

  /** The counted array-reading loop: the count, then ReadArray. */
  method ReadCountedArray<T>(s: Bytes, pos: nat, e: Endian, read: Reader<T>, check: Check<T>) returns (r: Result<(seq<T>, nat)>)
    ensures r == ReadCounted(s, pos, e, read, check)
  {
    var count := ReadU32N(s, pos, e);
    if count.Err? {
      return Err(count.error);
    }
    r := ReadArray(s, count.value.1, count.value.0, read, check);
  }

  /** The bytes written so far in front of the outcome of writing the rest. */
  function Behind(done: Bytes, rest: Result<Bytes>): (r: Result<Bytes>)
    ensures r.Ok? <==> rest.Ok?
  {
    match rest
    case Ok(w) => Ok(done + w)
    case Err(err) => Err(err)
  }

  /** Before the writing loop nothing is written and every record is still to write. */
  lemma WriteBegins<T>(items: seq<T>, write: Writer<T>)
    ensures WriteMany(items, write) == Behind([], WriteMany(items[0..], write))
  {
    assert items[0..] == items;
    match WriteMany(items, write) {
      case Ok(w) => assert [] + w == w;
      case Err(_) =>
    }
  }

  /** One record written moves its bytes from what is left to write to what is written. */
  lemma WriteOn<T>(items: seq<T>, i: nat, write: Writer<T>, done: Bytes, whole: Result<Bytes>, w: Bytes)
    requires i < |items| && write(items[i]) == Ok(w)
    requires whole == Behind(done, WriteMany(items[i..], write))
    ensures whole == Behind(done + w, WriteMany(items[i + 1..], write))
  {
    var rest := WriteMany(items[i + 1..], write);
    assert items[i..][1..] == items[i + 1..];
    if rest.Ok? {
      assert done + (w + rest.value) == done + w + rest.value;
    }
  }

  /** A record that cannot be written stops the loop with its exception. */
  lemma WriteStops<T>(items: seq<T>, i: nat, write: Writer<T>, done: Bytes, whole: Result<Bytes>)
    requires i < |items| && write(items[i]).Err?
    requires whole == Behind(done, WriteMany(items[i..], write))
    ensures whole == Err(write(items[i]).error)
  {
  }

  /** Once every record is written, the loop's result is the bytes written. */
  lemma WriteEnds<T>(items: seq<T>, i: nat, write: Writer<T>, done: Bytes, whole: Result<Bytes>)
    requires i == |items| && whole == Behind(done, WriteMany(items[i..], write))
    ensures whole == Ok(done)
  {
    assert done + [] == done;
  }

  /** The `foreach` loop writing the records of an array in order. */
  method WriteArray<T>(items: seq<T>, write: Writer<T>) returns (r: Result<Bytes>)
    ensures r == WriteMany(items, write)
  {
    var out: Bytes := [];
    var i := 0;
    assert items[0..] == items;
    match WriteMany(items, write) {
      case Ok(w) => assert [] + w == w;
      case Err(_) =>
    }
    while i < |items|
      invariant i <= |items|
      invariant WriteMany(items, write) == Behind(out, WriteMany(items[i..], write))
      decreases |items| - i
    {
      var w := write(items[i]);
      if w.Err? {
        return Err(w.error);
      }
      var rest := WriteMany(items[i + 1..], write);
      assert items[i..][1..] == items[i + 1..];
      if rest.Ok? {
        assert out + (w.value + rest.value) == out + w.value + rest.value;
      }
      out := out + w.value;
      i := i + 1;
    }
    assert out + [] == out;
    r := Ok(out);
  }

  // ---------------------------------------------------------------------------
  // Reading back what was written

  /** Wherever the bytes `write` makes of `x` sit, `read` there yields `x` and the cursor after them. */
  ghost predicate ReadsBack<T>(read: Reader<T>, write: Writer<T>, x: T)
  {
    write(x).Ok? ==>
      forall s: Bytes, p: nat {:trigger At(s, p, write(x).value)} :: At(s, p, write(x).value) ==> read(s, p) == Ok((x, p + |write(x).value|))
  }

  /** The bytes of a record that reads back, found at p, read as that record. */
  lemma ReadBackAt<T>(s: Bytes, p: nat, x: T, read: Reader<T>, write: Writer<T>)
    requires ReadsBack(read, write, x) && write(x).Ok? && At(s, p, write(x).value)
    ensures read(s, p) == Ok((x, p + |write(x).value|))
  {
  }

  /** A record reads back once every placement of its bytes, with the end named, reads it back. */
  lemma ReadsBackFromPlacements<T>(read: Reader<T>, write: Writer<T>, x: T)
    requires write(x).Ok? ==>
      forall s: Bytes, p: nat, end: nat | At(s, p, write(x).value) && end == p + |write(x).value| :: read(s, p) == Ok((x, end))
    ensures ReadsBack(read, write, x)
  {
  }

  /** Records i, i+1, ... each read back and pass their checks at their indices. */
  ghost predicate AllReadBack<T>(read: Reader<T>, write: Writer<T>, check: Check<T>, i: nat, items: seq<T>)
    decreases |items|
  {
    items != [] ==>
      ReadsBack(read, write, items[0]) && check(i, items[0]).Ok? && AllReadBack(read, write, check, i + 1, items[1..])
  }

  /** The same condition stated record by record. */
  lemma {:induction false} AllReadBackOf<T>(read: Reader<T>, write: Writer<T>, check: Check<T>, i: nat, items: seq<T>)
    requires forall k :: 0 <= k < |items| ==> ReadsBack(read, write, items[k]) && check(i + k, items[k]).Ok?
    ensures AllReadBack(read, write, check, i, items)
    decreases |items|
  {
    if items != [] {
      assert ReadsBack(read, write, items[0]) && check(i + 0, items[0]).Ok?;
      forall k | 0 <= k < |items[1..]|
        ensures ReadsBack(read, write, items[1..][k]) && check(i + 1 + k, items[1..][k]).Ok?
      {
        assert items[1..][k] == items[k + 1];
      }
      AllReadBackOf(read, write, check, i + 1, items[1..]);
    }
  }

  /** A record read and checked at i in front of the records after it. */
  lemma ReadManyCons<T>(s: Bytes, p: nat, i: nat, n: nat, read: Reader<T>, check: Check<T>,
                        x: T, q: nat, xs: seq<T>, end: nat)
    requires i < n && read(s, p) == Ok((x, q)) && check(i, x).Ok?
    requires ReadMany(s, q, i + 1, n, read, check) == Ok((xs, end))
    ensures ReadMany(s, p, i, n, read, check) == Ok(([x] + xs, end))
  {
  }

  /**
   * Records that each read back and pass their checks read back as an array: records i
   * up to n, ending at `end`, just after their bytes.
   */
  lemma {:induction false} ReadManyWritten<T>(s: Bytes, p: nat, i: nat, n: nat, end: nat, items: seq<T>,
                                              read: Reader<T>, write: Writer<T>, check: Check<T>)
    requires AllReadBack(read, write, check, i, items)
    requires WriteMany(items, write).Ok? && At(s, p, WriteMany(items, write).value)
    requires n == i + |items| && end == p + |WriteMany(items, write).value|
    ensures ReadMany(s, p, i, n, read, check) == Ok((items, end))
    decreases |items|
  {
    if items != [] {
      var head := write(items[0]).value;
      var tail := WriteMany(items[1..], write).value;
      assert WriteMany(items, write).value == head + tail;
      AtSplit(s, p, head, tail);
      ReadBackAt(s, p, items[0], read, write);
      ReadManyWritten(s, p + |head|, i + 1, n, end, items[1..], read, write, check);
      ReadManyCons(s, p, i, n, read, check, items[0], p + |head|, items[1..], end);
      assert [items[0]] + items[1..] == items;
    }
  }

  /** A count followed by records, as WriteCounted lays them out, reads back. */
  lemma CountedWritten<T>(s: Bytes, p: nat, items: seq<T>, read: Reader<T>, write: Writer<T>, check: Check<T>, e: Endian)
    requires |items| < TWO_32 && AllReadBack(read, write, check, 0, items)
    requires WriteMany(items, write).Ok? && At(s, p, EncodeCount(|items|, e) + WriteMany(items, write).value)
    ensures ReadU32N(s, p, e) == Ok((|items|, p + 4))
    ensures ReadMany(s, p + 4, 0, |items|, read, check) == Ok((items, p + 4 + |WriteMany(items, write).value|))
  {
    var count := EncodeCount(|items|, e);
    var body := WriteMany(items, write).value;
    AtSplit(s, p, count, body);
    ReadCountAt(s, p, |items|, e);
    ReadManyWritten(s, p + 4, 0, |items|, p + 4 + |body|, items, read, write, check);
  }

  /** Under the bound, a count and records laid out by WriteCounted read back through ReadBounded. */
  lemma BoundedWritten<T>(s: Bytes, p: nat, items: seq<T>, e: Endian, max: nat, msg: string,
                          read: Reader<T>, write: Writer<T>, check: Check<T>, end: nat)
    requires |items| < max && |items| < TWO_32 && AllReadBack(read, write, check, 0, items)
    requires WriteMany(items, write).Ok? && At(s, p, EncodeCount(|items|, e) + WriteMany(items, write).value)
    requires end == p + 4 + |WriteMany(items, write).value|
    ensures ReadBounded(s, p, e, max, msg, read, check) == Ok((items, end))
  {
    CountedWritten(s, p, items, read, write, check, e);
  }

  /** A count at or over the bound, as WriteCounted lays it out, is rejected by ReadBounded. */
  lemma CountedOverBound<T>(s: Bytes, p: nat, items: Option<seq<T>>, e: Endian, max: nat, msg: string,
                            read: Reader<T>, write: Writer<T>, check: Check<T>)
    requires max <= |ItemsOf(items)| < TWO_32
    requires WriteCounted(items, write, e).Ok? && At(s, p, WriteCounted(items, write, e).value)
    ensures ReadBounded(s, p, e, max, msg, read, check) == Err(Format(msg))
  {
    var w := WriteCounted(items, write, e).value;
    CountedPrefix(items, write, e);
    DecodeEncodeU32N(|ItemsOf(items)|, e);
    AtSlice(s, p, w);
    assert s[p..p + 4] == w[..4];
    BoundExceeded(s, p, e, max, msg, read, check);
  }

  /** Under the bound, a possibly null array laid out by WriteCounted reads back as its items. */
  lemma CountedUnderBound<T>(s: Bytes, p: nat, items: Option<seq<T>>, e: Endian, max: nat, msg: string,
                             read: Reader<T>, write: Writer<T>, check: Check<T>, end: nat)
    requires |ItemsOf(items)| < max && |ItemsOf(items)| < TWO_32 && AllReadBack(read, write, check, 0, ItemsOf(items))
    requires WriteCounted(items, write, e).Ok? && At(s, p, WriteCounted(items, write, e).value)
    requires end == p + |WriteCounted(items, write, e).value|
    ensures ReadBounded(s, p, e, max, msg, read, check) == Ok((ItemsOf(items), end))
  {
    var body := WriteMany(ItemsOf(items), write).value;
    assert WriteCounted(items, write, e).value == EncodeCount(|ItemsOf(items)|, e) + body;
    BoundedWritten(s, p, ItemsOf(items), e, max, msg, read, write, check, end);
  }

  /** A count followed by records, as WriteCounted lays them out, reads back through ReadCounted. */
  lemma CountedReadBack<T>(s: Bytes, p: nat, items: seq<T>, e: Endian, read: Reader<T>, write: Writer<T>, check: Check<T>, end: nat)
    requires |items| < TWO_32 && AllReadBack(read, write, check, 0, items)
    requires WriteMany(items, write).Ok? && At(s, p, EncodeCount(|items|, e) + WriteMany(items, write).value)
    requires end == p + 4 + |WriteMany(items, write).value|
    ensures ReadCounted(s, p, e, read, check) == Ok((items, end))
  {
    CountedWritten(s, p, items, read, write, check, e);
  }
}
