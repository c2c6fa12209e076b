/**
 * QUIC variable-length integers (section 16 of RFC 9000) and the
 * length-prefixed strings built on them.
 */
module Varint {
  import opened Base
  import opened Numerals

  const MAX_VARINT: nat := 0x3FFF_FFFF_FFFF_FFFF

  /** Big-endian bytes of `v`, the low `len` of them. */
  function BigEndian(v: nat, len: nat): (b: Bytes)
    ensures |b| == len
  {
    Fixed(v, 0x100, len)
  }

  function FromBigEndian(b: Bytes): nat {
    Value(b, 0x100)
  }

  /** Sets the two length bits of the first byte; below 0x40 they are clear, so or-ing adds. */
  function WithLengthBits(b: Bytes, bits: nat): (r: Bytes)
    requires |b| > 0 && b[0] < 0x40 && bits <= 0xC0
    ensures |r| == |b|
  {
    [b[0] + bits] + b[1..]
  }

  /** Values above MAX_VARINT make the encoder panic, hence the precondition. */
  function EncodeVarint(v: nat): (b: Bytes)
    requires v <= MAX_VARINT
    ensures |b| == 1 || |b| == 2 || |b| == 4 || |b| == 8
  {
    if v < 0x40 then [v]
    else if v < 0x4000 then [v / 0x100 + 0x40, v % 0x100]
    else if v < 0x4000_0000 then TopByteBelow(v, 4); WithLengthBits(BigEndian(v, 4), 0x80)
    else TopByteBelow(v, 8); WithLengthBits(BigEndian(v, 8), 0xC0)
  }

  /** The byte count announced by the two high bits of the first byte. */
  function AnnouncedSize(first: byte): (n: nat)
    ensures n == 1 || n == 2 || n == 4 || n == 8
  {
    match first / 0x40
    case 0 => 1
    case 1 => 2
    case 2 => 4
    case _ => 8
  }

  function ReadVarint(data: Bytes): (r: Result<Parsed<nat>>)
    ensures r.Ok? ==> 0 < r.value.size <= |data| && r.value.value <= MAX_VARINT
    ensures r.Err? ==> r.error == ShortBuffer
  {
    if |data| == 0 then Err(ShortBuffer)
    else
      var size := AnnouncedSize(data[0]);
      if |data| < size then Err(ShortBuffer)
      else
        PayloadBitsBound(data, size);
        Ok(Parsed(FromBigEndian([data[0] % 0x40] + data[1..size]), size))
  }

  /** appendString: the length as a varint, then the bytes. */
  function EncodeString(s: Bytes): Bytes
    requires |s| <= MAX_VARINT
  {
    EncodeVarint(|s|) + s
  }

  function ReadString(data: Bytes): (r: Result<Parsed<Bytes>>)
    ensures r.Ok? ==> 0 < r.value.size <= |data|
    ensures r.Ok? ==> |r.value.value| < r.value.size && |r.value.value| <= MAX_VARINT
    ensures r.Err? ==> r.error == ShortBuffer
  {
    var len :- ReadVarint(data);
    if |data| - len.size < len.value then Err(ShortBuffer)
    else Ok(Parsed(data[len.size..len.size + len.value], len.size + len.value))
  }

  lemma PowersOf256()
    ensures Pow(0x100, 1) == 0x100
    ensures Pow(0x100, 2) == 0x1_0000
    ensures Pow(0x100, 3) == 0x100_0000
    ensures Pow(0x100, 4) == 0x1_0000_0000
    ensures Pow(0x100, 7) == 0x100_0000_0000_0000
    ensures Pow(0x100, 8) == 0x1_0000_0000_0000_0000
  {
    assert Pow(0x100, 2) == 0x1_0000;
    assert Pow(0x100, 4) == 0x1_0000_0000;
    assert Pow(0x100, 6) == 0x1_0000_0000_0000;
  }

  lemma TopByteBelow(v: nat, len: nat)
    requires (len == 4 && v < 0x4000_0000) || (len == 8 && v <= MAX_VARINT)
    ensures |BigEndian(v, len)| > 0 && BigEndian(v, len)[0] < 0x40
  {
    PowersOf256();
    hide Pow, Value, Fixed;
    var b := BigEndian(v, len);
    ValueOfFixed(v, 0x100, len);
    assert b == [b[0]] + b[1..];
    ValueOfConcat([b[0]], b[1..], 0x100);
    ValueOfDigit(b[0], 0x100);
    assert b[0] * Pow(0x100, len - 1) <= v;
  }

  /** Masking the length bits of the first byte undoes setting them. */
  lemma ReadTagged(b: Bytes, bits: nat, tail: Bytes)
    requires |b| > 0 && b[0] < 0x40
    requires bits % 0x40 == 0 && bits <= 0xC0 && AnnouncedSize(bits) == |b|
    ensures ReadVarint(WithLengthBits(b, bits) + tail) == Ok(Parsed(FromBigEndian(b), |b|))
  {
    var data := WithLengthBits(b, bits) + tail;
    assert data[0] == b[0] + bits;
    assert [data[0] % 0x40] + data[1..|b|] == b;
  }

  /** The two high bits that announce a size. */
  function LengthBits(size: nat): (bits: nat)
    ensures bits <= 0xC0
  {
    match size
    case 1 => 0
    case 2 => 0x40
    case 4 => 0x80
    case _ => 0xC0
  }

  lemma EncodeVarintAsTagged(v: nat)
    requires v <= MAX_VARINT
    ensures var b := BigEndian(v, |EncodeVarint(v)|);
            && b[0] < 0x40
            && EncodeVarint(v) == WithLengthBits(b, LengthBits(|b|))
            && FromBigEndian(b) == v
  {
    PowersOf256();
    hide Pow, Value, Fixed;
    var len := |EncodeVarint(v)|;
    assert v < Pow(0x100, len);
    ValueOfFixed(v, 0x100, len);
    if len <= 2 {
      ShortBigEndian(v, len);
    } else {
      TopByteBelow(v, len);
    }
  }

  lemma ShortBigEndian(v: nat, len: nat)
    requires len == 1 || len == 2
    ensures BigEndian(v, len) == if len == 1 then [v % 0x100] else [v / 0x100 % 0x100, v % 0x100]
  {
    hide Value;
    assert BigEndian(v / 0x100, 1) == BigEndian(v / 0x100 / 0x100, 0) + [v / 0x100 % 0x100];
  }

  /** Reading an encoded value returns it and its length, whatever follows. */
  lemma ReadEncodedVarint(v: nat, tail: Bytes)
    requires v <= MAX_VARINT
    ensures ReadVarint(EncodeVarint(v) + tail) == Ok(Parsed(v, |EncodeVarint(v)|))
  {
    hide EncodeVarint, ReadVarint, BigEndian, FromBigEndian;
    EncodeVarintAsTagged(v);
    var b := BigEndian(v, |EncodeVarint(v)|);
    ReadTagged(b, LengthBits(|b|), tail);
  }

  /** A reader sees only the bytes it consumes. */
  lemma ReadVarintStable(a: Bytes, b: Bytes)
    requires ReadVarint(a).Ok? && AgreeOn(a, b, ReadVarint(a).value.size)
    ensures ReadVarint(b) == ReadVarint(a)
  {
    var n := ReadVarint(a).value.size;
    assert a[0] == a[..n][0] == b[..n][0] == b[0];
    assert a[1..n] == a[..n][1..] == b[..n][1..] == b[1..n];
  }

  /** What the bits outside the length bits can hold. */
  lemma PayloadBitsBound(data: Bytes, size: nat)
    requires 0 < size <= |data| && (size == 1 || size == 2 || size == 4 || size == 8)
    ensures FromBigEndian([data[0] % 0x40] + data[1..size])
          < (match size case 1 => 0x40 case 2 => 0x4000 case 4 => 0x4000_0000 case _ => MAX_VARINT + 1)
  {
    PowersOf256();
    assert Pow(0x100, 0) == 1;
    LeadingDigitBound(data[0] % 0x40, data[1..size], 0x100, 0x40);
  }

  /**
   * The encoder is the shortest among all byte strings that read as the value,
   * so re-encoding a value read never takes more bytes than reading it did.
   */
  lemma EncodingIsShortest(data: Bytes)
    requires ReadVarint(data).Ok?
    ensures |EncodeVarint(ReadVarint(data).value.value)| <= ReadVarint(data).value.size
  {
    PayloadBitsBound(data, ReadVarint(data).value.size);
  }

  lemma SplitFirstByte(first: byte)
    ensures first == first % 0x40 + LengthBits(AnnouncedSize(first))
  {
  }

  /** The bytes of the value, without the length bits. */
  lemma ReadIsBare(data: Bytes)
    requires ReadVarint(data).Ok?
    ensures var p := ReadVarint(data).value;
            p.size == AnnouncedSize(data[0]) && BigEndian(p.value, p.size) == [data[0] % 0x40] + data[1..p.size]
  {
    var size := ReadVarint(data).value.size;
    FixedOfValue([data[0] % 0x40] + data[1..size], 0x100);
  }

  /** Re-encoding gives back the very bytes exactly when they were the shortest form. */
  lemma ReencodeExactly(data: Bytes)
    requires ReadVarint(data).Ok?
    ensures var p := ReadVarint(data).value;
            EncodeVarint(p.value) == data[..p.size] <==> |EncodeVarint(p.value)| == p.size
  {
    hide EncodeVarint, ReadVarint, BigEndian, FromBigEndian, AnnouncedSize, LengthBits;
    var p := ReadVarint(data).value;
    if |EncodeVarint(p.value)| == p.size {
      ReadIsBare(data);
      EncodeVarintAsTagged(p.value);
      SplitFirstByte(data[0]);
      assert data[..p.size] == [data[0]] + data[1..p.size];
    }
  }

  lemma ReadEncodedString(s: Bytes, tail: Bytes)
    requires |s| <= MAX_VARINT
    ensures ReadString(EncodeString(s) + tail) == Ok(Parsed(s, |EncodeString(s)|))
  {
    ReadEncodedVarint(|s|, s + tail);
    assert EncodeString(s) + tail == EncodeVarint(|s|) + (s + tail);
  }

  /** Re-encoding a string read never takes more bytes than reading it did. */
  lemma StringEncodingIsShortest(data: Bytes)
    requires ReadString(data).Ok?
    ensures |EncodeString(ReadString(data).value.value)| <= ReadString(data).value.size
  {
    hide EncodeVarint, ReadVarint;
    EncodingIsShortest(data);
  }

  /** Re-encoding a string gives back the very bytes exactly when its length was in the shortest form. */
  lemma ReencodeStringExactly(data: Bytes)
    requires ReadString(data).Ok?
    ensures var p := ReadString(data).value;
            EncodeString(p.value) == data[..p.size] <==> |EncodeString(p.value)| == p.size
  {
    hide EncodeVarint, ReadVarint;
    EncodingIsShortest(data);
    ReencodeExactly(data);
    var len, p := ReadVarint(data).value, ReadString(data).value;
    assert data[..p.size] == data[..len.size] + data[len.size..p.size];
  }

  lemma ReadStringStable(a: Bytes, b: Bytes)
    requires ReadString(a).Ok? && AgreeOn(a, b, ReadString(a).value.size)
    ensures ReadString(b) == ReadString(a)
  {
    var len := ReadVarint(a).value;
    var n := ReadString(a).value.size;
    assert a[..len.size] == a[..n][..len.size] == b[..n][..len.size] == b[..len.size];
    ReadVarintStable(a, b);
    assert a[len.size..n] == a[..n][len.size..] == b[..n][len.size..] == b[len.size..n];
  }
}
