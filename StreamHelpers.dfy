/**
 * StreamHelpers.ReadString / WriteString: a string is a u16 count followed by that many
 * bytes of Encoding.ASCII. A string is its UTF-16 code units (`Text`); a null string
 * (the only thing WriteString can be handed besides a real one) is `None`.
 *
 * Both directions lose information. Writing, Encoding.ASCII turns every code unit above
 * 0x7F into '?'. Reading, Gibbed.IO's ReadString with its trailing-NUL flag set ends the
 * string at the first zero byte, and Encoding.ASCII turns every byte above 0x7F into '?'.
 * A string comes back as written exactly when it is Plain: no NUL and nothing above 0x7F.
 */
module StreamHelpers {
  import opened Wrappers
  import opened ByteIO

  const MAX_STRING_LENGTH: nat := 0xFFFF

  /** The byte Encoding.ASCII puts in place of what it cannot map: '?'. */
  const QUESTION_MARK: bv8 := 0x3F

  /** Encoding.ASCII on one code unit. */
  function AsciiByte(c: bv16): bv8
  {
    if c <= 0x7F then c as bv8 else QUESTION_MARK
  }

  /** Encoding.ASCII on one byte. */
  function AsciiUnit(b: bv8): bv16
  {
    if b <= 0x7F then b as bv16 else QUESTION_MARK as bv16
  }

  /** The bytes Encoding.ASCII makes of a string: one per code unit. */
  function AsciiBytes(v: Text): Bytes
  {
    seq(|v|, i requires 0 <= i < |v| => AsciiByte(v[i]))
  }

  /** The trailing-NUL cut: the bytes before the first zero byte, or all of them when there is none. */
  function BeforeNul(raw: Bytes): (r: Bytes)
    ensures r <= raw
    ensures forall i :: 0 <= i < |r| ==> r[i] != 0
    ensures |r| < |raw| ==> raw[|r|] == 0
  {
    if raw == [] || raw[0] == 0 then []
    else
      var rest := BeforeNul(raw[1..]);
      assert raw == [raw[0]] + raw[1..];
      [raw[0]] + rest
  }

  /** A string both directions carry unchanged: no NUL and no code unit above 0x7F. */
  predicate Plain(v: Text)
  {
    forall i :: 0 <= i < |v| ==> 0 < v[i] <= 0x7F
  }

  /** A string WriteString accepts and ReadString gives back unchanged. */
  predicate Lossless(v: Option<Text>)
  {
    v.Some? && |v.value| <= MAX_STRING_LENGTH && Plain(v.value)
  }

  /** What ReadString makes of the bytes it read: cut at the first NUL, then decoded as ASCII. */
  function Decoded(raw: Bytes): (r: Text)
    ensures Plain(r) && |r| <= |raw|
  {
    var cut := BeforeNul(raw);
    seq(|cut|, i requires 0 <= i < |cut| => AsciiUnit(cut[i]))
  }

  /** ReadString: the u16 count, then exactly that many bytes, decoded. */
  function ReadString(s: Bytes, pos: nat, e: Endian): (r: Result<(Text, nat)>)
    ensures r.Ok? ==> Lossless(Some(r.value.0))
    ensures r.Ok? ==> pos + 2 + |r.value.0| <= r.value.1 <= pos + 2 + MAX_STRING_LENGTH
  {
    var len :- ReadU16N(s, pos, e);
    var raw :- ReadBytes(s, len.1, len.0);
    Ok((Decoded(raw.0), raw.1))
  }

  /** The bytes WriteString emits for a string it accepts. */
  function EncodeString(value: Text, e: Endian): (r: Bytes)
    requires |value| <= MAX_STRING_LENGTH
    ensures |r| == 2 + |value|
  {
    EncodeU16N(|value|, e) + AsciiBytes(value)
  }

  /** WriteString: null is ArgumentNull, more than 65535 code units is ArgumentOutOfRange. */
  function WriteString(value: Option<Text>, e: Endian): (r: Result<Bytes>)
    ensures value.None? ==> r == Err(ArgumentNull)
    ensures value.Some? && |value.value| > MAX_STRING_LENGTH ==> r == Err(ArgumentOutOfRange)
    ensures r.Ok? <==> value.Some? && |value.value| <= MAX_STRING_LENGTH
    ensures r.Ok? ==> |r.value| == 2 + |value.value|
  {
    match value
    case None => Err(ArgumentNull)
    case Some(v) =>
      if |v| > MAX_STRING_LENGTH then Err(ArgumentOutOfRange) else Ok(EncodeString(v, e))
  }

  /** A Plain string's ASCII bytes hold no NUL, so the cut keeps them all and decoding gives the string back. */
  lemma {:induction false} PlainDecoded(v: Text)
    requires Plain(v)
    ensures Decoded(AsciiBytes(v)) == v
  {
    var raw := AsciiBytes(v);
    var cut := BeforeNul(raw);
    assert forall i :: 0 <= i < |raw| ==> raw[i] == AsciiByte(v[i]) != 0;
    assert cut == raw;
  }

  /** The string ReadString gives back is the one written exactly when it is Plain. */
  lemma DecodedIffPlain(v: Text)
    ensures Decoded(AsciiBytes(v)) == v <==> Plain(v)
  {
    if Plain(v) {
      PlainDecoded(v);
    }
  }

  /** Whatever WriteString writes, ReadString reads as its bytes decoded, consuming exactly what was written. */
  lemma {:induction false} ReadWrittenAt(s: Bytes, p: nat, value: Text, e: Endian)
    requires |value| <= MAX_STRING_LENGTH && At(s, p, EncodeString(value, e))
    ensures ReadString(s, p, e) == Ok((Decoded(AsciiBytes(value)), p + 2 + |value|))
  {
    var w := EncodeU16N(|value|, e);
    assert EncodeString(value, e) == w + AsciiBytes(value);
    AtSplit(s, p, w, AsciiBytes(value));
    ReadU16NAt(s, p, |value|, e);
    ReadBytesAt(s, p + 2, AsciiBytes(value));
  }

  /** A Plain string WriteString wrote is read back as itself. */
  lemma ReadStringAt(s: Bytes, p: nat, value: Text, e: Endian)
    requires Lossless(Some(value)) && At(s, p, EncodeString(value, e))
    ensures ReadString(s, p, e) == Ok((value, p + 2 + |value|))
  {
    ReadWrittenAt(s, p, value, e);
    PlainDecoded(value);
  }

  /**
   * The same facts with WriteString itself as the writer: what is read back is the
   * string's ASCII bytes cut at the first NUL, and that is the string exactly when it is Plain.
   */
  lemma {:induction false} WriteStringReadBack(value: Text, e: Endian, rest: Bytes)
    requires |value| <= MAX_STRING_LENGTH
    ensures WriteString(Some(value), e).Ok?
    ensures ReadString(WriteString(Some(value), e).value + rest, 0, e)
         == Ok((Decoded(AsciiBytes(value)), 2 + |value|))
    ensures ReadString(WriteString(Some(value), e).value + rest, 0, e).value.0 == value <==> Plain(value)
  {
    var w := EncodeString(value, e);
    assert (w + rest)[0..|w|] == w;
    AtSlice(w + rest, 0, w);
    ReadWrittenAt(w + rest, 0, value, e);
    DecodedIffPlain(value);
  }

  /** Two strings ReadString does not give back as written: "a\0b" comes back as "a", and 'é' as '?'. */
  lemma LossyStrings()
    ensures ReadString(EncodeString([0x61, 0, 0x62], Little), 0, Little) == Ok(([0x61], 5))
    ensures ReadString(EncodeString([0xE9], Little), 0, Little) == Ok(([0x3F], 3))
  {
    NulCutsString();
    NonAsciiBecomesQuestionMark();
  }

  /** "a\0b" is read back as "a": the read stops at the NUL but consumes all five bytes. */
  lemma NulCutsString()
    ensures ReadString(EncodeString([0x61, 0, 0x62], Little), 0, Little) == Ok(([0x61], 5))
  {
    var w := EncodeString([0x61, 0, 0x62], Little);
    AtSlice(w, 0, w);
    ReadWrittenAt(w, 0, [0x61, 0, 0x62], Little);
    var a := AsciiBytes([0x61, 0, 0x62]);
    assert a == [0x61, 0, 0x62];
    assert a == [0x61] + a[1..] && a[1..][0] == 0;
    assert BeforeNul(a) == [0x61];
    assert Decoded(a) == [0x61];
  }

  /** 'é' (0xE9) is written as '?' and read back as '?'. */
  lemma NonAsciiBecomesQuestionMark()
    ensures ReadString(EncodeString([0xE9], Little), 0, Little) == Ok(([0x3F], 3))
  {
    var x := EncodeString([0xE9], Little);
    AtSlice(x, 0, x);
    ReadWrittenAt(x, 0, [0xE9], Little);
    assert AsciiBytes([0xE9]) == [0x3F];
    assert [0x3F as bv8] == [0x3F] + [][..];
    assert BeforeNul([0x3F]) == [0x3F];
    assert Decoded([0x3F]) == [0x3F];
  }
}
