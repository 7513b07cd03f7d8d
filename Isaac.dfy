/**
 * ISAAC, Bob Jenkins' pseudorandom generator, as the archive reader uses it: a
 * 256-word state (`_State`, here `state`), a 256-word batch of results (`_Results`,
 * here `results`), the registers a, b, c and a read index.
 *
 * Words are the 32-bit patterns of ISAAC's `int` fields, so `+` and `<<` wrap
 * modulo 2^32 and ISAAC's `(int)((uint)a >> n)` is the logical shift `>>` of
 * u32. The two state lookups index with `(x & Mask) >> 2` and
 * `((y >> 8) & Mask) >> 2`; after the mask only bits that a sign-extending shift
 * leaves alone are kept, so the logical shift gives the same index (Slot).
 *
 * The specification is functional: Round is one output step, Rounds the first n of
 * them, Generated a whole batch; Scramble and Pass are the mixing of `Initialize`.
 */
module Isaac {
  import opened Wrappers
  import opened ByteIO
  import opened Word32
  import opened Arith

  const SIZE: int := 256
  const GOLDEN: u32 := 0x9E37_79B9
  /** How many times `Initialize` scrambles the golden ratio before the passes. */
  const WARM_UP: nat := 4
  /** The mixers as `Initialize` sets them before scrambling: every one the golden ratio. */
  const START: Mixers := Mixers(GOLDEN, GOLDEN, GOLDEN, GOLDEN, GOLDEN, GOLDEN, GOLDEN, GOLDEN)
  const MASK: u32 := 0x3FC

  /** The state index `(x & Mask) >> 2` (the shift of a masked word is a division by 4): always in 0..255. */
  function Slot(x: u32): (r: nat)
    ensures r < SIZE
  {
    AndLe(x, MASK, 32);
    And(x, MASK) / 4
  }

  /** Masking never yields more than the mask. */
  lemma {:induction false} AndLe(x: nat, y: nat, n: nat)
    ensures AndBits(x, y, n) <= y
  {
    if n > 0 {
      AndLe(x / 2, y / 2, n - 1);
    }
  }

  /** The four shifts applied to `a` in turn, chosen by the output index modulo 4. */
  function Mix(a: u32, k: int): u32
  {
    if k == 0 then Xor(a, Shl(a, 13))
    else if k == 1 then Xor(a, Shr(a, 6))
    else if k == 2 then Xor(a, Shl(a, 2))
    else Xor(a, Shr(a, 16))
  }

  /** The generator's state as values: memory, results and the registers a and b. */
  datatype Gen = Gen(mem: seq<u32>, rsl: seq<u32>, a: u32, b: u32)
  {
    predicate Sized() { |mem| == SIZE && |rsl| == SIZE }
  }

  /** Output step i: it rewrites memory word i and result word i, and nothing else. */
  function Round(g: Gen, i: nat): (r: Gen)
    requires g.Sized() && i < SIZE
    ensures r.Sized()
  {
    var x := g.mem[i];
    var a := Add(Mix(g.a, i % 4), g.mem[(i + 128) % SIZE]);
    var y := Add(Add(g.mem[Slot(x)], a), g.b);
    var mem := g.mem[i := y];
    var b := Add(mem[Slot(Shr(y, 8))], x);
    Gen(mem, g.rsl[i := b], a, b)
  }

  /** Step i leaves every other word alone. */
  lemma RoundFrame(g: Gen, i: nat, k: int)
    requires g.Sized() && i < SIZE && 0 <= k < SIZE && k != i
    ensures Round(g, i).mem[k] == g.mem[k] && Round(g, i).rsl[k] == g.rsl[k]
  {
  }

  /** The first n output steps. */
  function Rounds(g: Gen, n: nat): (r: Gen)
    requires g.Sized() && n <= SIZE
    ensures r.Sized()
  {
    if n == 0 then g else Round(Rounds(g, n - 1), n - 1)
  }

  /** One batch: the counter is incremented and added to b, then all 256 steps run. */
  function Generated(g: Gen, c: u32): (r: (Gen, u32))
    requires g.Sized()
    ensures r.0.Sized() && r.1 == Add(c, 1)
  {
    (Rounds(g.(b := Add(g.b, Add(c, 1))), SIZE), Add(c, 1))
  }

  /**
   * The pair (g, c) is the batch generated from g0 with counter c0. Stated over a
   * one-point range so that the 256 steps are only expanded where a proof names them.
   */
  ghost predicate Batched(g: Gen, c: u32, g0: Gen, c0: u32)
    requires g0.Sized()
  {
    forall k: u32 | k == c0 :: (g, c) == Generated(g0, k)
  }

  // ---------------------------------------------------------------------------
  // Initialisation

  /** The eight mixing words of `Initialize`. */
  datatype Mixers = Mixers(a: u32, b: u32, c: u32, d: u32, e: u32, f: u32, g: u32, h: u32)

  /** The shift of line k of the scrambling sequence: left for even k, right (logical) for odd k. */
  function LineShift(k: nat, x: u32): u32
    requires k < 8
  {
    if k == 0 then Shl(x, 11)
    else if k == 1 then Shr(x, 2)
    else if k == 2 then Shl(x, 8)
    else if k == 3 then Shr(x, 16)
    else if k == 4 then Shl(x, 10)
    else if k == 5 then Shr(x, 4)
    else if k == 6 then Shl(x, 8)
    else Shr(x, 9)
  }

  /**
   * Line k of the scrambling sequence, `a ^= b shift; d += a; b += c;` with the
   * mixers renamed so that line k + 1 starts again at a: the result is rotated by
   * one place, and eight lines bring every mixer back to its own name.
   */
  function Line(m: Mixers, k: nat): (r: Mixers)
    requires k < 8
    ensures r.b == m.c && r.d == m.e && r.e == m.f && r.f == m.g && r.g == m.h
  {
    var a := Xor(m.a, LineShift(k, m.b));
    Mixers(Add(m.b, m.c), m.c, Add(m.d, a), m.e, m.f, m.g, m.h, a)
  }

  /** The first k lines of the scrambling sequence. */
  function Lines(m: Mixers, k: nat): Mixers
    requires k <= 8
  {
    if k == 0 then m else Line(Lines(m, k - 1), k - 1)
  }

  /** The scrambling sequence of `Initialize`, once: all eight lines. */
  function Scramble(m: Mixers): Mixers
  {
    Lines(m, 8)
  }

  /** The scrambling sequence exactly as `Initialize` spells it out, statement by statement. */
  function ScrambleInline(m: Mixers): Mixers
  {
    var a1 := Xor(m.a, Shl(m.b, 11));
    var d1 := Add(m.d, a1);
    var b1 := Add(m.b, m.c);
    var b2 := Xor(b1, Shr(m.c, 2));
    var e1 := Add(m.e, b2);
    var c1 := Add(m.c, d1);
    var c2 := Xor(c1, Shl(d1, 8));
    var f1 := Add(m.f, c2);
    var d2 := Add(d1, e1);
    var d3 := Xor(d2, Shr(e1, 16));
    var g1 := Add(m.g, d3);
    var e2 := Add(e1, f1);
    var e3 := Xor(e2, Shl(f1, 10));
    var h1 := Add(m.h, e3);
    var f2 := Add(f1, g1);
    var f3 := Xor(f2, Shr(g1, 4));
    var a2 := Add(a1, f3);
    var g2 := Add(g1, h1);
    var g3 := Xor(g2, Shl(h1, 8));
    var b3 := Add(b2, g3);
    var h2 := Add(h1, a2);
    var h3 := Xor(h2, Shr(a2, 9));
    var c3 := Add(c2, h3);
    var a3 := Add(a2, b3);
    Mixers(a3, b3, c3, d3, e3, f3, g3, h3)
  }

  /** The eight rotated lines compute the statement-by-statement sequence. */
  lemma ScrambleLines(m: Mixers)
    ensures Scramble(m) == ScrambleInline(m)
  {
    var l1 := Line(m, 0);
    var l2 := Line(l1, 1);
    var l3 := Line(l2, 2);
    var l4 := Line(l3, 3);
    var l5 := Line(l4, 4);
    var l6 := Line(l5, 5);
    var l7 := Line(l6, 6);
    var l8 := Line(l7, 7);
    assert Lines(m, 8) == l8 by {
      assert Lines(m, 1) == l1;
      assert Lines(m, 2) == l2;
      assert Lines(m, 3) == l3;
      assert Lines(m, 4) == l4;
      assert Lines(m, 5) == l5;
      assert Lines(m, 6) == l6;
      assert Lines(m, 7) == l7;
    }
  }

  function Scrambled(m: Mixers, n: nat): Mixers
  {
    if n == 0 then m else Scramble(Scrambled(m, n - 1))
  }

  /** Adds eight words to the mixers, word k to mixer k. */
  function AddWords(m: Mixers, w: seq<u32>): Mixers
    requires |w| == 8
  {
    Mixers(Add(m.a, w[0]), Add(m.b, w[1]), Add(m.c, w[2]), Add(m.d, w[3]), Add(m.e, w[4]), Add(m.f, w[5]),
      Add(m.g, w[6]), Add(m.h, w[7]))
  }

  function Words(m: Mixers): (r: seq<u32>)
    ensures |r| == 8
  {
    [m.a, m.b, m.c, m.d, m.e, m.f, m.g, m.h]
  }

  /**
   * The first k groups of a fill pass: each group optionally adds the next eight
   * words of src, scrambles, and emits the mixers as eight memory words.
   */
  function Pass(m: Mixers, src: seq<u32>, add: bool, k: nat): (r: (Mixers, seq<u32>))
    requires |src| == SIZE && k <= SIZE / 8
    ensures |r.1| == 8 * k
  {
    if k == 0 then (m, [])
    else
      var prev := Pass(m, src, add, k - 1);
      var m' := Scramble(if add then AddWords(prev.0, src[8 * (k - 1)..8 * k]) else prev.0);
      (m', prev.1 + Words(m'))
  }

  /**
   * The memory `Initialize(flag)` builds from the results buffer: four scrambles of
   * the golden ratio, a pass that adds the seed only when flag is set, and a second
   * pass over the memory only when flag is set.
   */
  function InitialMemory(seed: seq<u32>, flag: bool): (r: seq<u32>)
    requires |seed| == SIZE
    ensures |r| == SIZE
  {
    var first := Pass(Scrambled(START, WARM_UP), seed, flag, SIZE / 8);
    if flag then Pass(first.0, first.1, true, SIZE / 8).1 else first.1
  }

  /** The memory is the first pass over the seed, followed by the second pass when flag is set. */
  lemma InitialPasses(seed: seq<u32>, flag: bool, first: (Mixers, seq<u32>), last: (Mixers, seq<u32>))
    requires |seed| == SIZE && first == Pass(Scrambled(START, WARM_UP), seed, flag, SIZE / 8)
    requires last == if flag then Pass(first.0, first.1, true, SIZE / 8) else first
    ensures InitialMemory(seed, flag) == last.1
  {
  }

  /** The results buffer of a seeded generator: the seed, then zeros. */
  function SeedBuffer(seed: seq<u32>): (r: seq<u32>)
    requires |seed| <= SIZE
    ensures |r| == SIZE && r[..|seed|] == seed
    ensures forall k :: |seed| <= k < SIZE ==> r[k] == 0
  {
    seed + seq(SIZE - |seed|, _ => 0)
  }

  /**
   * (g, c) is the first batch of a generator initialised from the results buffer
   * `buffer` with flag `flag`, its registers a, b and c being a0, b0 and c0 before.
   * Stated over a one-point range, like Batched, so that the initial memory is only
   * expanded where a proof names it.
   */
  ghost predicate Initialised(g: Gen, c: u32, buffer: seq<u32>, flag: bool, a0: u32, b0: u32, c0: u32)
    requires |buffer| == SIZE
  {
    forall f: bool | f == flag :: Batched(g, c, Gen(InitialMemory(buffer, f), buffer, a0, b0), c0)
  }

  // ---------------------------------------------------------------------------
  // The output stream

  /** A generator as `Value` sees it: its batch, its counter and the read index. */
  datatype Reader = Reader(g: Gen, c: u32, index: nat)
  {
    predicate Ready() { g.Sized() && index < SIZE }

    /** The word `Value` hands out next. */
    function Word(): u32
      requires Ready()
    {
      g.rsl[index]
    }
  }

  /** The reader after one `Value`: the next index, or a fresh batch after index 255. */
  function Next(r: Reader): (n: Reader)
    requires r.Ready()
    ensures n.Ready()
  {
    if r.index < SIZE - 1 then r.(index := r.index + 1)
    else
      var batch := Generated(r.g, r.c);
      Reader(batch.0, batch.1, 0)
  }

  /** The reader after n calls of `Value`. */
  function Draw(r: Reader, n: nat): (d: Reader)
    requires r.Ready()
    ensures d.Ready()
  {
    if n == 0 then r else Next(Draw(r, n - 1))
  }

  /**
   * The reader of a generator initialised from the results buffer `buffer` just
   * before the closing `Generate` of `Initialize(true)`: the initial memory, the
   * buffer as results, the registers zero and the index at the end of a batch, so
   * that one Next yields the first batch.
   */
  ghost function Primed(buffer: seq<u32>): (r: Reader)
    requires |buffer| == SIZE
    ensures r.Ready()
  {
    Reader(Gen(InitialMemory(buffer, true), buffer, 0, 0), 0, SIZE - 1)
  }

  /** The first `Value` after initialisation starts the first batch, which is what the generator holds. */
  lemma PrimedNext(g: Gen, c: u32, buffer: seq<u32>)
    requires |buffer| == SIZE && g.Sized() && Initialised(g, c, buffer, true, 0, 0, 0)
    ensures Next(Primed(buffer)) == Reader(g, c, 0)
  {
    var start := Gen(InitialMemory(buffer, true), buffer, 0, 0);
    assert (g, c) == Generated(start, 0);
  }

  /** The seed buffer of a seed of full length is the seed itself. */
  lemma SeedBufferFull(seed: seq<u32>)
    requires |seed| == SIZE
    ensures SeedBuffer(seed) == seed
  {
    assert SeedBuffer(seed)[..SIZE] == SeedBuffer(seed);
  }

  /** Writing eight words at i keeps the prefix before i and extends it by those words. */
  lemma FillPrefix(before: seq<u32>, after: seq<u32>, i: nat, w: seq<u32>)
    requires |w| == 8 && i + 8 <= |before| == |after|
    requires forall k :: 0 <= k < |after| ==> after[k] == if i <= k < i + 8 then w[k - i] else before[k]
    ensures after[..i + 8] == before[..i] + w && after[i + 8..] == before[i + 8..]
  {
    assert after[..i + 8] == before[..i] + w;
  }

  /** Without a seed the fill pass ignores the results buffer entirely. */
  lemma {:induction false} UnseededIgnoresBuffer(m: Mixers, s: seq<u32>, t: seq<u32>, k: nat)
    requires |s| == SIZE && |t| == SIZE && k <= SIZE / 8
    ensures Pass(m, s, false, k) == Pass(m, t, false, k)
  {
    if k > 0 {
      UnseededIgnoresBuffer(m, s, t, k - 1);
    }
  }

  class Isaac {
    const results: array<u32>
    const state: array<u32>
    var index: int
    var a: u32
    var b: u32
    var c: u32
    /** The results buffer the generator was initialised from: the seed, padded with zeros. */
    ghost const buffer: seq<u32>

    ghost predicate Valid()
      reads this
    {
      results.Length == SIZE && state.Length == SIZE && results != state && 0 <= index < SIZE
    }

    ghost function Core(): (g: Gen)
      reads this, state, results
      requires Valid()
      ensures g.Sized()
    {
      Gen(state[..], results[..], a, b)
    }

    /** The generator as a value, with its read index. */
    ghost function ReaderOf(): (r: Reader)
      reads this, state, results
      requires Valid()
      ensures r.Ready()
    {
      Reader(Core(), c, index)
    }

    /** `new ISAAC()`, randinit without a seed: the results buffer is all zeros. */
    constructor Unseeded()
      ensures Valid() && fresh(state) && fresh(results) && index == 0
      ensures |buffer| == SIZE && forall k :: 0 <= k < SIZE ==> buffer[k] == 0
      ensures Initialised(Core(), c, buffer, false, 0, 0, 0)
    {
      var zeros := new u32[SIZE](_ => 0);
      results, buffer := zeros, zeros[..];
      state := new u32[SIZE](_ => 0);
      index := 0;
      a, b, c := 0, 0, 0;
      new;
      Initialize(false);
    }

    /** `new ISAAC(seed)`: the seed is copied to the start of the results buffer. */
    constructor Seeded(seed: seq<u32>)
      requires |seed| <= SIZE
      ensures Valid() && fresh(state) && fresh(results) && index == 0
      ensures buffer == SeedBuffer(seed)
      ensures Initialised(Core(), c, buffer, true, 0, 0, 0)
    {
      var copied := new u32[SIZE](k => if 0 <= k < |seed| then seed[k] else 0);
      results, buffer := copied, copied[..];
      state := new u32[SIZE](_ => 0);
      index := 0;
      a, b, c := 0, 0, 0;
      new;
      assert buffer == SeedBuffer(seed);
      Initialize(true);
    }

    /**
     * `new ISAAC(seed)` for a seed that may be null: no seed is `randinit(ctx, FALSE)`,
     * and a seed longer than the buffer is the ArgumentException of the copy.
     */
    static method Create(seed: Option<seq<u32>>) returns (r: Result<Isaac>)
      ensures seed.Some? && |seed.value| > SIZE <==> r == Err(Argument)
      ensures r.Ok? ==>
        (fresh(r.value) && r.value.Valid() && r.value.index == 0 && |r.value.buffer| == SIZE
         && Initialised(r.value.Core(), r.value.c, r.value.buffer, seed.Some?, 0, 0, 0))
      ensures seed.None? ==> (r.Ok? && forall k :: 0 <= k < SIZE ==> r.value.buffer[k] == 0)
      ensures seed.Some? && |seed.value| <= SIZE ==> (r.Ok? && r.value.buffer == SeedBuffer(seed.value))
    {
      if seed.None? {
        var g := new Isaac.Unseeded();
        return Ok(g);
      }
      if |seed.value| > SIZE {
        return Err(Argument);
      }
      var g := new Isaac.Seeded(seed.value);
      return Ok(g);
    }

    /**
     * The generator holds the state reached after the first n steps from g0. It is
     * stated over a one-point range so that the expanded steps are only unfolded
     * where a proof names them.
     */
    ghost predicate Tracks(g0: Gen, n: nat)
      reads this, state, results
      requires Valid() && g0.Sized() && n <= SIZE
    {
      forall k: nat | n <= k <= n :: Core() == Rounds(g0, k)
    }

    /** One output step, as each of the four unrolled copies in `Generate` performs it. */
    method Step(i: int, j: int, ghost g0: Gen)
      requires Valid() && 0 <= i < SIZE && j == (i + 128) % SIZE
      requires g0.Sized() && Tracks(g0, i)
      modifies this`a, this`b, state, results
      ensures Valid() && Tracks(g0, i + 1)
    {
      var x := state[i];
      a := Add(Mix(a, i % 4), state[j]);
      var y := Add(Add(state[Slot(x)], a), b);
      state[i] := y;
      b := Add(state[Slot(Shr(y, 8))], x);
      results[i] := b;
    }

    /** The loop body of `Generate`: four output steps, one for each shift of `a`. */
    method Steps(i: int, j: int, ghost g0: Gen)
      requires Valid() && 0 <= i && i + 4 <= SIZE && i % 4 == 0 && j == (i + 128) % SIZE
      requires g0.Sized() && Tracks(g0, i)
      modifies this`a, this`b, state, results
      ensures Valid() && Tracks(g0, i + 4)
    {
      Step(i, j, g0);
      Step(i + 1, j + 1, g0);
      Step(i + 2, j + 2, g0);
      Step(i + 3, j + 3, g0);
    }

    /** `Generate`: a fresh batch of 256 results. */
    method Generate()
      requires Valid()
      modifies this`a, this`b, this`c, state, results
      ensures Valid() && Batched(Core(), c, old(Core()), old(c))
    {
      c := Add(c, 1);
      b := Add(b, c);
      ghost var g0 := Core();
      assert Core() == Rounds(g0, 0);
      Batch(g0);
      assert g0 == old(Core()).(b := Add(old(Core()).b, Add(old(c), 1)));
    }

    /** The two strided passes of `Generate` over the state, from the registers as they are. */
    method Batch(ghost g0: Gen)
      requires Valid() && g0.Sized() && Tracks(g0, 0)
      modifies this`a, this`b, state, results
      ensures Valid() && Tracks(g0, SIZE)
    {
      HalfBatch(0, g0);
      HalfBatch(SIZE / 2, g0);
    }

    /** Half of the batch loop: steps i up to i + 128, with j half a buffer ahead, wrapping round. */
    method HalfBatch(start: int, ghost g0: Gen)
      requires Valid() && g0.Sized() && (start == 0 || start == SIZE / 2) && Tracks(g0, start)
      modifies this`a, this`b, state, results
      ensures Valid() && Tracks(g0, start + SIZE / 2)
    {
      var i, j := start, (start + SIZE / 2) % SIZE;
      while i < start + SIZE / 2
        invariant start <= i <= start + SIZE / 2 && i % 4 == 0
        invariant j == if start == 0 then i + SIZE / 2 else i - SIZE / 2
        invariant Valid() && Tracks(g0, i)
      {
        Steps(i, j, g0);
        i, j := i + 4, j + 4;
      }
    }

    /**
     * `Initialize(flag)`: four scrambles of the golden ratio, the fill pass over the
     * results buffer, the second pass over the state when flag is set, then the first
     * batch. The registers a, b and c of the object are not touched before that batch.
     */
    method Initialize(flag: bool)
      requires Valid()
      modifies this`a, this`b, this`c, state, results
      ensures Valid()
      ensures Initialised(Core(), c, old(results[..]), flag, old(a), old(b), old(c))
    {
      Fill(flag);
      Generate();
    }

    /** The mixing part of `Initialize`: the state becomes the initial memory of the results buffer. */
    method Fill(flag: bool)
      requires Valid()
      modifies state
      ensures Valid() && state[..] == InitialMemory(results[..], flag)
    {
      ghost var src := results[..];
      var m := WarmUp();
      m := FirstPass(m, flag);
      assert results[..] == src;
      ghost var first := (m, state[..]);
      if flag {
        m := SecondPass(m);
      }
      assert results[..] == src;
      InitialPasses(src, flag, first, (m, state[..]));
    }

    /** The four scrambles of the golden ratio that open `Initialize`. */
    static method WarmUp() returns (m: Mixers)
      ensures m == Scrambled(START, WARM_UP)
    {
      m := ScrambleTimes(START, WARM_UP);
    }

    /** Scrambling the mixers n times over. */
    static method ScrambleTimes(m0: Mixers, n: nat) returns (m: Mixers)
      ensures m == Scrambled(m0, n)
    {
      m := m0;
      var i := 0;
      while i < n
        invariant 0 <= i <= n && m == Scrambled(m0, i)
      {
        m := Scramble(m);
        i := i + 1;
      }
    }

    /**
     * The pass of `Initialize` that fills the state group by group, adding the
     * results buffer's words first only when add is set.
     */
    method FirstPass(m0: Mixers, add: bool) returns (m: Mixers)
      requires Valid()
      modifies state
      ensures Valid() && (m, state[..]) == Pass(m0, results[..], add, SIZE / 8)
    {
      ghost var src := results[..];
      m := m0;
      var i := 0;
      ghost var n := 0;
      while i < SIZE
        invariant 0 <= n <= SIZE / 8 && i == 8 * n
        invariant Filled(m, m0, src, add, n)
      {
        assert results[i..i + 8] == src[i..i + 8];
        m := NextGroup(i, m, results[i..i + 8], add, m0, src, n);
        i, n := i + 8, n + 1;
      }
      assert state[..] == state[..8 * n];
      assert results[..] == src;
    }

    /** The second pass of `Initialize(true)`: the state's own words are added in. */
    method SecondPass(m0: Mixers) returns (m: Mixers)
      requires Valid()
      modifies state
      ensures Valid() && (m, state[..]) == Pass(m0, old(state[..]), true, SIZE / 8)
    {
      ghost var src := state[..];
      m := m0;
      var i := 0;
      ghost var n := 0;
      while i < SIZE
        invariant 0 <= n <= SIZE / 8 && i == 8 * n
        invariant state[i..] == src[i..]
        invariant Filled(m, m0, src, true, n)
      {
        assert state[i..i + 8] == src[i..i + 8];
        m := NextGroup(i, m, state[i..i + 8], true, m0, src, n);
        i, n := i + 8, n + 1;
      }
      assert state[..] == state[..8 * n];
    }

    /**
     * One group of a fill pass: the mixers take in the eight words w when add is
     * set, are scrambled, and are stored at state[i..i + 8].
     */
    method NextGroup(i: int, m: Mixers, w: seq<u32>, add: bool, ghost m0: Mixers, ghost src: seq<u32>, ghost n: nat)
      returns (m': Mixers)
      requires Valid() && |src| == SIZE && n < SIZE / 8 && i == 8 * n
      requires |w| == 8 && (add ==> w == src[i..i + 8])
      requires Filled(m, m0, src, add, n)
      modifies state
      ensures Filled(m', m0, src, add, n + 1)
      ensures state[i + 8..] == old(state[i + 8..])
    {
      ghost var before := state[..];
      m' := if add then AddWords(m, w) else m;
      m' := Scramble(m');
      FillGroup(i, m');
      FillPrefix(before, state[..], i, Words(m'));
    }

    /**
     * After n groups of a pass from m0 over src, the mixers are m and the state
     * starts with the words emitted so far. Stated over a one-point range like
     * Tracks.
     */
    ghost predicate Filled(m: Mixers, m0: Mixers, src: seq<u32>, add: bool, n: nat)
      reads this, state
      requires Valid() && |src| == SIZE && n <= SIZE / 8
    {
      forall k: nat | n <= k <= n :: (m, state[..8 * k]) == Pass(m0, src, add, k)
    }

    /** Stores the eight mixers as state[i..i + 8]. */
    method FillGroup(i: int, m: Mixers)
      requires Valid() && 0 <= i && i + 8 <= SIZE
      modifies state
      ensures forall k :: 0 <= k < SIZE ==> state[k] == if i <= k < i + 8 then Words(m)[k - i] else old(state[k])
    {
      state[i] := m.a;
      state[i + 1] := m.b;
      state[i + 2] := m.c;
      state[i + 3] := m.d;
      state[i + 4] := m.e;
      state[i + 5] := m.f;
      state[i + 6] := m.g;
      state[i + 7] := m.h;
    }

    /**
     * `Value`: the result at the read index. After handing out result 255 it
     * generates the next batch and starts again at 0.
     */
    method Value() returns (r: u32)
      requires Valid()
      modifies this`index, this`a, this`b, this`c, state, results
      ensures Valid() && r == old(results[index])
      ensures old(index) < SIZE - 1 ==>
        (index == old(index) + 1 && Core() == old(Core()) && c == old(c))
      ensures old(index) == SIZE - 1 ==> index == 0 && Batched(Core(), c, old(Core()), old(c))
      ensures ReaderOf() == Next(old(ReaderOf())) && r == old(ReaderOf()).Word()
    {
      var next := index;
      r := results[next];
      next := next + 1;
      if next >= SIZE {
        Generate();
        index := 0;
      } else {
        index := next;
      }
    }
  }
}
