/**
 * The two "Bogocrypt" ciphers of the Rebirth archive entries: Bogocrypt1, a keyed
 * XOR and byte shuffle on 4-byte groups with a key that changes after every group,
 * and Bogocrypt2, an XOR with a fixed 128-byte table.
 */
module Bogocrypt {
  import opened ByteIO
  import opened Arith

  // ---------------------------------------------------------------------------
  // Byte-wise XOR

  /** The two strings XORed byte by byte. */
  function XorBytes(a: Bytes, b: Bytes): (r: Bytes)
    requires |a| == |b|
    ensures |r| == |a|
  {
    seq(|a|, p requires 0 <= p < |a| => a[p] ^ b[p])
  }

  lemma XorByteTwice(x: bv8, y: bv8)
    ensures (x ^ y) ^ y == x
  {
  }

  /** XOR with the same string twice is the identity. */
  lemma XorTwice(a: Bytes, b: Bytes)
    requires |a| == |b|
    ensures XorBytes(XorBytes(a, b), b) == a
  {
    forall p | 0 <= p < |a|
      ensures XorBytes(XorBytes(a, b), b)[p] == a[p]
    {
      XorByteTwice(a[p], b[p]);
    }
  }

  lemma XorAppend(a: Bytes, b: Bytes, c: Bytes, d: Bytes)
    requires |a| == |b| && |c| == |d|
    ensures XorBytes(a + c, b + d) == XorBytes(a, b) + XorBytes(c, d)
  {
  }

  // ---------------------------------------------------------------------------
  // Ciphers applied group by group under a chain of keys

  /** A cipher on one 4-byte group under a key. */
  type GroupCipher<!K> = (Bytes, K) -> Bytes

  /** `f` maps 4-byte groups to 4-byte groups. */
  ghost predicate OnGroups<K(!new)>(f: GroupCipher<K>)
  {
    forall g: Bytes, k: K :: |g| == 4 ==> |f(g, k)| == 4
  }

  /** `inv` undoes `f` on every group under every key. */
  ghost predicate Undoes<K(!new)>(inv: GroupCipher<K>, f: GroupCipher<K>)
  {
    forall g: Bytes, k: K :: |g| == 4 ==> inv(f(g, k), k) == g
  }

  /**
   * The key for group n: `next` applied n times to the first key. The key is part of
   * the decreases clause so that a literal count alone (256 groups to a block) does not
   * make the verifier unroll the definition.
   */
  function KeyAt<K>(next: K -> K, key: K, n: nat): K
    decreases n, key
  {
    if n == 0 then key else next(KeyAt(next, key, n - 1))
  }

  lemma {:induction false} KeyAtAdd<K>(next: K -> K, key: K, m: nat, n: nat)
    ensures KeyAt(next, KeyAt(next, key, m), n) == KeyAt(next, key, m + n)
    decreases n
  {
    if n > 0 {
      KeyAtAdd(next, key, m, n - 1);
    }
  }

  /** `f` applied to each of the first `groups` groups of `data`, group i under KeyAt(next, key, i). */
  function Groupwise<K(!new)>(f: GroupCipher<K>, next: K -> K, data: Bytes, key: K, groups: nat): (r: Bytes)
    requires OnGroups(f) && |data| == 4 * groups
    ensures |r| == |data|
  {
    if groups == 0 then []
    else
      var n := 4 * (groups - 1);
      Groupwise(f, next, data[..n], key, groups - 1) + f(data[n..], KeyAt(next, key, groups - 1))
  }

  lemma {:induction false} GroupwiseInverse<K(!new)>(inv: GroupCipher<K>, f: GroupCipher<K>, next: K -> K, data: Bytes, key: K, groups: nat)
    requires OnGroups(f) && OnGroups(inv) && Undoes(inv, f) && |data| == 4 * groups
    ensures Groupwise(inv, next, Groupwise(f, next, data, key, groups), key, groups) == data
    decreases groups
  {
    if groups > 0 {
      var n := 4 * (groups - 1);
      var r := Groupwise(f, next, data, key, groups);
      var head := Groupwise(f, next, data[..n], key, groups - 1);
      assert r[..n] == head;
      GroupwiseInverse(inv, f, next, data[..n], key, groups - 1);
      assert data == data[..n] + data[n..];
    }
  }

  /** Groupwise on a string that ends in one more group. */
  lemma GroupwiseLast<K(!new)>(f: GroupCipher<K>, next: K -> K, init: Bytes, last: Bytes, key: K, m: nat)
    requires OnGroups(f) && |init| == 4 * m && |last| == 4
    ensures Groupwise(f, next, init + last, key, m + 1) == Groupwise(f, next, init, key, m) + f(last, KeyAt(next, key, m))
  {
    var d := init + last;
    assert d[..|init|] == init && d[|init|..] == last;
  }

  /** The regrouping GroupwiseSplit's induction step needs: (front + middle) + last is front + (middle + last). */
  lemma Regroup(whole: Bytes, init: Bytes, front: Bytes, middle: Bytes, last: Bytes, tail: Bytes)
    requires whole == init + last && init == front + middle && tail == middle + last
    ensures whole == front + tail
  {
  }

  /** Working in pieces with the key carried over is working on the whole. */
  lemma {:induction false} GroupwiseSplit<K(!new)>(f: GroupCipher<K>, next: K -> K, a: Bytes, b: Bytes, key: K, ga: nat, gb: nat)
    requires OnGroups(f) && |a| == 4 * ga && |b| == 4 * gb
    ensures Groupwise(f, next, a + b, key, ga + gb) == Groupwise(f, next, a, key, ga) + Groupwise(f, next, b, KeyAt(next, key, ga), gb)
    decreases gb
  {
    if gb > 0 {
      var m := gb - 1;
      var n := 4 * m;
      var k := KeyAt(next, key, ga);
      var init := a + b[..n];
      assert a + b == init + b[n..] && ga + gb == (ga + m) + 1;
      GroupwiseSplit(f, next, a, b[..n], key, ga, m);
      KeyAtAdd(next, key, ga, m);
      GroupwiseLast(f, next, init, b[n..], key, ga + m);
      GroupwiseLast(f, next, b[..n], b[n..], k, m);
      var front := Groupwise(f, next, a, key, ga);
      var middle := Groupwise(f, next, b[..n], k, m);
      var last := f(b[n..], KeyAt(next, k, m));
      Regroup(Groupwise(f, next, a + b, key, ga + gb), Groupwise(f, next, init, key, ga + m), front, middle, last,
              Groupwise(f, next, b, k, gb));
    } else {
      assert a + b == a;
    }
  }

  // ---------------------------------------------------------------------------
  // Bogocrypt1: a keyed XOR and byte shuffle on 4-byte groups

  /** The key's bytes, least significant first. */
  function KeyBytes(key: bv32): (r: Bytes)
    ensures |r| == 4
  {
    [((key >> 0) & 0xFF) as bv8, ((key >> 8) & 0xFF) as bv8, ((key >> 16) & 0xFF) as bv8, ((key >> 24) & 0xFF) as bv8]
  }

  /** The swaps selected by the low four bits of the key: 2 reverses, 9 swaps neighbours, 13 swaps halves. */
  function Shuffle(g: Bytes, key: bv32): (r: Bytes)
    requires |g| == 4
    ensures |r| == 4
  {
    var select := key & 15;
    if select == 2 then [g[3], g[2], g[1], g[0]]
    else if select == 9 then [g[1], g[0], g[3], g[2]]
    else if select == 13 then [g[2], g[3], g[0], g[1]]
    else g
  }

  /** The key update after each group. */
  function NextKey(key: bv32): bv32
  {
    var t := (key ^ (key << 8)) >> 9;
    key ^ (t ^ (key << 8) ^ ((t ^ key ^ (key << 8)) << 23))
  }

  /** Each shuffle is its own inverse. */
  lemma ShuffleInvolution(g: Bytes, key: bv32)
    requires |g| == 4
    ensures Shuffle(Shuffle(g, key), key) == g
  {
  }

  /**
   * One group of Bogocrypt1: XOR with the key bytes, then shuffle. Groups are
   * always four bytes; any other string is left alone, so that the cipher is total.
   */
  function CryptGroup(g: Bytes, key: bv32): (r: Bytes)
    ensures |r| == |g|
  {
    if |g| != 4 then g else Shuffle(XorBytes(g, KeyBytes(key)), key)
  }

  /** The inverse of one group: unshuffle, then XOR. */
  function UncryptGroup(g: Bytes, key: bv32): (r: Bytes)
    ensures |r| == |g|
  {
    if |g| != 4 then g else XorBytes(Shuffle(g, key), KeyBytes(key))
  }

  lemma GroupRoundTrip(g: Bytes, key: bv32)
    requires |g| == 4
    ensures UncryptGroup(CryptGroup(g, key), key) == g
    ensures CryptGroup(UncryptGroup(g, key), key) == g
  {
    var k := KeyBytes(key);
    ShuffleInvolution(XorBytes(g, k), key);
    ShuffleInvolution(g, key);
    XorTwice(g, k);
    XorTwice(Shuffle(g, key), k);
  }

  lemma CryptGroupsUndo()
    ensures OnGroups(CryptGroup) && OnGroups(UncryptGroup)
    ensures Undoes(UncryptGroup, CryptGroup) && Undoes(CryptGroup, UncryptGroup)
  {
    forall g: Bytes, k: bv32 | |g| == 4
      ensures UncryptGroup(CryptGroup(g, k), k) == g && CryptGroup(UncryptGroup(g, k), k) == g
    {
      GroupRoundTrip(g, k);
    }
  }

  /** Bogocrypt1 over `groups` whole groups, group i deciphered under KeyAt(NextKey, key, i). */
  function Bogo1(data: Bytes, key: bv32, groups: nat): (r: Bytes)
    requires |data| == 4 * groups
    ensures |r| == |data|
  {
    CryptGroupsUndo();
    Groupwise(CryptGroup, NextKey, data, key, groups)
  }

  /** Its inverse, the direction a packer would take. */
  function Unbogo1(data: Bytes, key: bv32, groups: nat): (r: Bytes)
    requires |data| == 4 * groups
    ensures |r| == |data|
  {
    CryptGroupsUndo();
    Groupwise(UncryptGroup, NextKey, data, key, groups)
  }

  lemma Bogo1RoundTrip(data: Bytes, key: bv32, groups: nat)
    requires |data| == 4 * groups
    ensures Bogo1(Unbogo1(data, key, groups), key, groups) == data
    ensures Unbogo1(Bogo1(data, key, groups), key, groups) == data
  {
    CryptGroupsUndo();
    GroupwiseInverse(CryptGroup, UncryptGroup, NextKey, data, key, groups);
    GroupwiseInverse(UncryptGroup, CryptGroup, NextKey, data, key, groups);
  }

  /** Deciphering in pieces with the returned key carried over is deciphering the whole. */
  lemma Bogo1Split(a: Bytes, b: Bytes, key: bv32, ga: nat, gb: nat)
    requires |a| == 4 * ga && |b| == 4 * gb
    ensures Bogo1(a + b, key, ga + gb) == Bogo1(a, key, ga) + Bogo1(b, KeyAt(NextKey, key, ga), gb)
  {
    CryptGroupsUndo();
    GroupwiseSplit(CryptGroup, NextKey, a, b, key, ga, gb);
  }

  /** Bogo1 on a string that ends in one more group. */
  lemma Bogo1Last(init: Bytes, last: Bytes, key: bv32, groups: nat)
    requires groups > 0 && |init| == 4 * (groups - 1) && |last| == 4
    ensures Bogo1(init + last, key, groups) == Bogo1(init, key, groups - 1) + CryptGroup(last, KeyAt(NextKey, key, groups - 1))
  {
    CryptGroupsUndo();
    GroupwiseLast(CryptGroup, NextKey, init, last, key, groups - 1);
  }

  /** One more group deciphered in place extends the deciphered prefix by a group. */
  lemma Bogo1Extend(orig: Bytes, cur: Bytes, offset: nat, i: nat, j: nat, key: bv32)
    requires |orig| == |cur| && i == offset + 4 * j && i + 4 <= |orig|
    requires cur[offset..i] == Bogo1(orig[offset..i], key, j)
    requires cur[i..i + 4] == CryptGroup(orig[i..i + 4], KeyAt(NextKey, key, j))
    ensures cur[offset..i + 4] == Bogo1(orig[offset..i + 4], key, j + 1)
  {
    Bogo1Last(orig[offset..i], orig[i..i + 4], key, j + 1);
    assert orig[offset..i + 4] == orig[offset..i] + orig[i..i + 4];
    assert cur[offset..i + 4] == cur[offset..i] + cur[i..i + 4];
  }

  /** The number of 4-byte groups the cipher loops run over for `count` bytes. */
  function Groups(count: int): (g: nat)
    ensures count <= 0 ==> g == 0
    ensures count > 0 ==> count <= 4 * g < count + 4
  {
    if count <= 0 then 0 else Run(count)
  }

  method SwapBytes(bytes: array<bv8>, left: int, right: int)
    requires 0 <= left < bytes.Length && 0 <= right < bytes.Length
    modifies bytes
    ensures bytes[left] == old(bytes[right]) && bytes[right] == old(bytes[left])
    ensures forall p | 0 <= p < bytes.Length && p != left && p != right :: bytes[p] == old(bytes[p])
  {
    var temp := bytes[left];
    bytes[left] := bytes[right];
    bytes[right] := temp;
  }

  /** Four elements make the four-element sequence they are. */
  lemma FourOf<T>(h: seq<T>, a: T, b: T, c: T, d: T)
    requires |h| == 4 && h[0] == a && h[1] == b && h[2] == c && h[3] == d
    ensures h == [a, b, c, d]
  {
  }

  lemma XorFourOf(g: Bytes, h: Bytes, k: Bytes)
    requires |g| == 4 && |h| == 4 && |k| == 4
    requires h[0] == g[0] ^ k[0] && h[1] == g[1] ^ k[1] && h[2] == g[2] ^ k[2] && h[3] == g[3] ^ k[3]
    ensures h == XorBytes(g, k)
  {
    var x := XorBytes(g, k);
    FourOf(x, g[0] ^ k[0], g[1] ^ k[1], g[2] ^ k[2], g[3] ^ k[3]);
    FourOf(h, g[0] ^ k[0], g[1] ^ k[1], g[2] ^ k[2], g[3] ^ k[3]);
  }

  /** `bytes[p] ^= x`. */
  method XorAt(bytes: array<bv8>, p: int, x: bv8)
    requires 0 <= p < bytes.Length
    modifies bytes
    ensures bytes[p] == old(bytes[p]) ^ x
    ensures forall q | 0 <= q < bytes.Length && q != p :: bytes[q] == old(bytes[q])
  {
    bytes[p] := bytes[p] ^ x;
  }

  /** Four XOR statements: the group at p XORed with the four bytes of k. */
  method XorFour(bytes: array<bv8>, p: int, k: Bytes)
    requires 0 <= p && p + 4 <= bytes.Length && |k| == 4
    modifies bytes
    ensures bytes[p..p + 4] == XorBytes(old(bytes[p..p + 4]), k)
    ensures forall q | 0 <= q < bytes.Length && !(p <= q < p + 4) :: bytes[q] == old(bytes[q])
  {
    XorAt(bytes, p + 0, k[0]);
    XorAt(bytes, p + 1, k[1]);
    XorAt(bytes, p + 2, k[2]);
    XorAt(bytes, p + 3, k[3]);
    XorFourOf(old(bytes[p..p + 4]), bytes[p..p + 4], k);
  }

  /** The second half of the loop body: the swaps selected by the key. */
  method ShuffleAt(bytes: array<bv8>, i: int, key: bv32)
    requires 0 <= i && i + 4 <= bytes.Length
    modifies bytes
    ensures bytes[i..i + 4] == Shuffle(old(bytes[i..i + 4]), key)
    ensures forall p | 0 <= p < bytes.Length && !(i <= p < i + 4) :: bytes[p] == old(bytes[p])
  {
    ghost var g := bytes[i..i + 4];
    match key & 15
    case 2 =>
      SwapBytes(bytes, i + 0, i + 3);
      SwapBytes(bytes, i + 1, i + 2);
      FourOf(bytes[i..i + 4], g[3], g[2], g[1], g[0]);
    case 9 =>
      SwapBytes(bytes, i + 0, i + 1);
      SwapBytes(bytes, i + 2, i + 3);
      FourOf(bytes[i..i + 4], g[1], g[0], g[3], g[2]);
    case 13 =>
      SwapBytes(bytes, i + 0, i + 2);
      SwapBytes(bytes, i + 1, i + 3);
      FourOf(bytes[i..i + 4], g[2], g[3], g[0], g[1]);
    case _ =>
  }

  /** One iteration of the Bogocrypt1 loop, without the key update: the group at i under `key`. */
  method CryptGroupAt(bytes: array<bv8>, i: int, key: bv32)
    requires 0 <= i && i + 4 <= bytes.Length
    modifies bytes
    ensures bytes[i..i + 4] == CryptGroup(old(bytes[i..i + 4]), key)
    ensures forall p | 0 <= p < bytes.Length && !(i <= p < i + 4) :: bytes[p] == old(bytes[p])
  {
    XorFour(bytes, i, [((key >> 0) & 0xFF) as bv8, ((key >> 8) & 0xFF) as bv8, ((key >> 16) & 0xFF) as bv8, ((key >> 24) & 0xFF) as bv8]);
    ShuffleAt(bytes, i, key);
  }

  /**
   * Bogocrypt1 in place on `count` bytes at `offset`, rounded up to whole groups;
   * returns the key for the group after the last one.
   */
  method Bogocrypt1(bytes: array<bv8>, offset: int, count: int, key: bv32) returns (next: bv32)
    requires 0 <= offset && offset + 4 * Groups(count) <= bytes.Length
    modifies bytes
    ensures var end := offset + 4 * Groups(count);
      bytes[offset..end] == Bogo1(old(bytes[offset..end]), key, Groups(count))
    ensures next == KeyAt(NextKey, key, Groups(count))
    ensures forall p | 0 <= p < bytes.Length && !(offset <= p < offset + 4 * Groups(count)) :: bytes[p] == old(bytes[p])
  {
    var end := offset + count;
    ghost var orig := bytes[..];
    ghost var groups := Groups(count);
    ghost var j := 0;
    var i := offset;
    next := key;
    while i < end
      invariant 0 <= j <= groups && i == offset + 4 * j
      invariant next == KeyAt(NextKey, key, j)
      invariant bytes[offset..i] == Bogo1(orig[offset..i], key, j)
      invariant forall p | 0 <= p < bytes.Length && !(offset <= p < i) :: bytes[p] == orig[p]
      decreases end - i
    {
      CryptStep(bytes, offset, i, j, key, next, orig);
      next := NextKey(next);
      i := i + 4;
      j := j + 1;
    }
    assert j == groups;
    assert orig[offset..i] == old(bytes[offset..i]);
  }

  /** The loop body of Bogocrypt1 and the loop invariant it keeps; `orig` is the array before the loop. */
  method CryptStep(bytes: array<bv8>, offset: int, i: int, ghost j: nat, key: bv32, next: bv32, ghost orig: Bytes)
    requires |orig| == bytes.Length && 0 <= offset && i == offset + 4 * j && i + 4 <= bytes.Length
    requires next == KeyAt(NextKey, key, j)
    requires bytes[offset..i] == Bogo1(orig[offset..i], key, j)
    requires forall p | 0 <= p < bytes.Length && !(offset <= p < i) :: bytes[p] == orig[p]
    modifies bytes
    ensures bytes[offset..i + 4] == Bogo1(orig[offset..i + 4], key, j + 1)
    ensures forall p | 0 <= p < bytes.Length && !(offset <= p < i + 4) :: bytes[p] == orig[p]
  {
    ghost var before := bytes[..];
    CryptGroupAt(bytes, i, next);
    ghost var cur := bytes[..];
    assert cur[offset..i] == before[offset..i];
    assert cur[i..i + 4] == CryptGroup(before[i..i + 4], next);
    assert before[i..i + 4] == orig[i..i + 4];
    Bogo1Extend(orig, cur, offset, i, j, key);
    assert bytes[offset..i + 4] == cur[offset..i + 4];
  }

  // ---------------------------------------------------------------------------
  // Bogocrypt2: an XOR with a fixed 128-byte table

  const TABLE: seq<bv8> := [
    0xB0, 0x22, 0x5D, 0x47, 0xD3, 0x1B, 0x59, 0xD1,
    0x97, 0x37, 0xFB, 0xD2, 0xC0, 0x31, 0x86, 0xFD,
    0xB5, 0xDD, 0xAC, 0x4B, 0xB4, 0x01, 0x15, 0x52,
    0x01, 0x0A, 0x75, 0x08, 0x5D, 0x50, 0xFE, 0x8C,
    0xA8, 0xAF, 0xD5, 0xCB, 0x09, 0xEE, 0xDC, 0xCA,
    0x76, 0xC4, 0x3F, 0x67, 0xED, 0x09, 0x8F, 0x64,
    0x43, 0x56, 0x30, 0x1A, 0x89, 0x2E, 0xDF, 0xF9,
    0xE4, 0xB8, 0x13, 0x1A, 0xBE, 0xAF, 0xA4, 0x02,
    0xFF, 0x60, 0x22, 0xE0, 0x0B, 0xFF, 0xAE, 0xC9,
    0x7D, 0xA0, 0x27, 0xF9, 0x11, 0x63, 0x2F, 0xE1,
    0x20, 0x7E, 0x51, 0xD7, 0x0E, 0xCD, 0xC4, 0xD4,
    0xCF, 0xCF, 0xA1, 0x88, 0x99, 0x42, 0x96, 0xCF,
    0xF0, 0xC1, 0x54, 0xC3, 0x36, 0x94, 0xC2, 0x92,
    0xDC, 0xB8, 0x63, 0xCA, 0xCA, 0x32, 0x12, 0x7A,
    0x3C, 0x88, 0x5F, 0xD2, 0x4B, 0xC3, 0xE4, 0x69,
    0x74, 0x32, 0xBD, 0x2C, 0x42, 0x28, 0xB2, 0x34
  ]

  /** A table repeated over n bytes. */
  function Cycle(tab: Bytes, n: nat): (s: Bytes)
    requires |tab| == 128
    ensures |s| == n
  {
    seq(n, p requires 0 <= p < n => tab[p % 128])
  }

  /** Bogocrypt2 of a string: byte p is XORed with table byte p mod 128. */
  function Bogo2(data: Bytes): (r: Bytes)
    ensures |r| == |data|
  {
    XorBytes(data, Cycle(TABLE, |data|))
  }

  /** Bogocrypt2 is its own inverse. */
  lemma Bogo2Involution(data: Bytes)
    ensures Bogo2(Bogo2(data)) == data
  {
    XorTwice(data, Cycle(TABLE, |data|));
  }

  /**
   * Working in pieces whose lengths are multiples of the table length, each piece
   * restarting at table byte 0, is working on the whole.
   */
  lemma Bogo2Split(a: Bytes, b: Bytes, k: nat)
    requires |a| == 128 * k
    ensures Bogo2(a + b) == Bogo2(a) + Bogo2(b)
  {
    CycleSplit(TABLE, |a|, |b|, k);
    XorAppend(a, Cycle(TABLE, |a|), b, Cycle(TABLE, |b|));
  }

  /** Bogocrypt2 works byte by byte, so a prefix of its output depends only on the same prefix of its input. */
  lemma Bogo2Prefix(data: Bytes, n: nat)
    requires n <= |data|
    ensures Bogo2(data)[..n] == Bogo2(data[..n])
  {
    assert Cycle(TABLE, |data|)[..n] == Cycle(TABLE, n);
  }

  lemma CycleSplit(tab: Bytes, m: nat, n: nat, k: nat)
    requires |tab| == 128 && m == 128 * k
    ensures Cycle(tab, m + n) == Cycle(tab, m) + Cycle(tab, n)
  {
    var s := Cycle(tab, m + n);
    forall p | 0 <= p < n
      ensures s[m + p] == Cycle(tab, n)[p]
    {
      ModShift128(p, k);
    }
  }

  lemma ModShift128(p: nat, k: nat)
    ensures (128 * k + p) % 128 == p % 128
  {
    DivModUnique(128 * k + p, 128, k + p / 128, p % 128);
  }

  /** XOR with the table cycle, on a string extended by one group. */
  lemma CycleExtend(tab: Bytes, orig: Bytes, cur: Bytes, offset: nat, i: nat)
    requires |tab| == 128 && |orig| == |cur| && offset + i + 4 <= |orig|
    requires cur[offset..offset + i] == XorBytes(orig[offset..offset + i], Cycle(tab, i))
    requires cur[offset + i..offset + i + 4]
          == XorBytes(orig[offset + i..offset + i + 4], [tab[(i + 0) % 128], tab[(i + 1) % 128], tab[(i + 2) % 128], tab[(i + 3) % 128]])
    ensures cur[offset..offset + i + 4] == XorBytes(orig[offset..offset + i + 4], Cycle(tab, i + 4))
  {
    var o := offset + i;
    var t := [tab[(i + 0) % 128], tab[(i + 1) % 128], tab[(i + 2) % 128], tab[(i + 3) % 128]];
    var head, group := orig[offset..o], orig[o..o + 4];
    assert orig[offset..o + 4] == head + group;
    assert Cycle(tab, i + 4) == Cycle(tab, i) + t;
    XorAppend(head, Cycle(tab, i), group, t);
    assert cur[offset..o + 4] == cur[offset..o] + cur[o..o + 4];
  }

  /** The loop body of Bogocrypt2: the group at byte i of the run, and the invariant it keeps. */
  method Crypt2Step(bytes: array<bv8>, offset: int, i: int, table: Bytes, ghost orig: Bytes)
    requires |table| == 128 && |orig| == bytes.Length && 0 <= offset && 0 <= i && offset + i + 4 <= bytes.Length
    requires bytes[offset..offset + i] == XorBytes(orig[offset..offset + i], Cycle(table, i))
    requires forall p | 0 <= p < bytes.Length && !(offset <= p < offset + i) :: bytes[p] == orig[p]
    modifies bytes
    ensures bytes[offset..offset + i + 4] == XorBytes(orig[offset..offset + i + 4], Cycle(table, i + 4))
    ensures forall p | 0 <= p < bytes.Length && !(offset <= p < offset + i + 4) :: bytes[p] == orig[p]
  {
    var o := offset + i;
    ghost var before := bytes[..];
    XorFour(bytes, o, [table[(i + 0) % 128], table[(i + 1) % 128], table[(i + 2) % 128], table[(i + 3) % 128]]);
    ghost var cur := bytes[..];
    assert cur[offset..o] == before[offset..o];
    CycleExtend(table, orig, cur, offset, i);
    assert bytes[offset..o + 4] == cur[offset..o + 4];
  }

  /** The Bogocrypt2 loop, with the table held in a local. */
  method XorTableCycle(bytes: array<bv8>, offset: int, count: int, table: Bytes)
    requires |table| == 128 && 0 <= offset && offset + 4 * Groups(count) <= bytes.Length
    modifies bytes
    ensures var end := offset + 4 * Groups(count);
      bytes[offset..end] == XorBytes(old(bytes[offset..end]), Cycle(table, end - offset))
    ensures forall p | 0 <= p < bytes.Length && !(offset <= p < offset + 4 * Groups(count)) :: bytes[p] == old(bytes[p])
  {
    ghost var orig := bytes[..];
    ghost var groups := Groups(count);
    ghost var j := 0;
    var i, o := 0, offset;
    while i < count
      invariant 0 <= j <= groups && i == 4 * j && o == offset + i
      invariant bytes[offset..o] == XorBytes(orig[offset..o], Cycle(table, i))
      invariant forall p | 0 <= p < bytes.Length && !(offset <= p < o) :: bytes[p] == orig[p]
      decreases count - i
    {
      Crypt2Step(bytes, offset, i, table, orig);
      i, o := i + 4, o + 4;
      j := j + 1;
    }
    assert j == groups;
    assert orig[offset..o] == old(bytes[offset..o]);
  }

  /**
   * Bogocrypt2 in place on `count` bytes at `offset`, rounded up to whole groups.
   * The table index `(i + k) & 0x7F` of a non-negative i is `(i + k) % 128`.
   */
  method Bogocrypt2(bytes: array<bv8>, offset: int, count: int)
    requires 0 <= offset && offset + 4 * Groups(count) <= bytes.Length
    modifies bytes
    ensures var end := offset + 4 * Groups(count);
      bytes[offset..end] == Bogo2(old(bytes[offset..end]))
    ensures forall p | 0 <= p < bytes.Length && !(offset <= p < offset + 4 * Groups(count)) :: bytes[p] == old(bytes[p])
  {
    XorTableCycle(bytes, offset, count, TABLE);
  }
}
