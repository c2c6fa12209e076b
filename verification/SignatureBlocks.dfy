/** The signature trailer of a signed frame and the message a signature covers. */
module SignatureBlocks {
  import opened Base
  import opened Numerals
  import opened Varint

  const SIG_ALG_ED25519: byte := 0x01

  type Nonce = n: Bytes | |n| == 16 witness seq(16, _ => 0)

  datatype SignatureBlock = SignatureBlock(
    algorithm: byte,
    vmid: Bytes,
    nonce: Nonce,
    timestampMs: int64,
    signature: Bytes)

  /** Lengths above MAX_VARINT make the encoder panic. */
  predicate Encodable(sb: SignatureBlock) {
    |sb.vmid| <= MAX_VARINT && |sb.signature| <= MAX_VARINT
  }

  /** uint64(x) for a signed x. */
  function ToUnsigned(x: int64): uint64 {
    if x < 0 then x + 0x1_0000_0000_0000_0000 else x
  }

  /** int64(x) for an unsigned x. */
  function ToSigned(x: uint64): int64 {
    if x > MAX_INT64 then x - 0x1_0000_0000_0000_0000 else x
  }

  /** Every part of the block that the signature covers. */
  function MetaBytes(sb: SignatureBlock): Bytes
    requires |sb.vmid| <= MAX_VARINT
  {
    [sb.algorithm] + EncodeString(sb.vmid) + sb.nonce + BigEndian(ToUnsigned(sb.timestampMs), 8)
  }

  function EncodeBlock(sb: SignatureBlock): Bytes
    requires Encodable(sb)
  {
    MetaBytes(sb) + EncodeVarint(|sb.signature|) + sb.signature
  }

  /** Bytes of a fixed width at the front of `data`. */
  function ReadFixed(data: Bytes, width: nat): (r: Result<Bytes>)
    ensures r.Ok? <==> width <= |data|
    ensures r.Ok? ==> |r.value| == width
  {
    if |data| < width then Err(ShortBuffer) else Ok(data[..width])
  }

  function Timestamp(b: Bytes): int64
    requires |b| == 8
  {
    PowersOf256();
    ValueBound(b, 0x100);
    ToSigned(FromBigEndian(b))
  }

  function DecodeBlock(data: Bytes): (r: Result<Parsed<SignatureBlock>>)
    ensures r.Ok? ==> 0 < r.value.size <= |data| && |r.value.value.vmid| <= MAX_VARINT
  {
    if |data| < 1 then Err(ShortBuffer)
    else
      var vmid :- ReadString(data[1..]);
      var p := 1 + vmid.size;
      var nonce :- ReadFixed(data[p..], 16);
      var stamp :- ReadFixed(data[p + 16..], 8);
      var len :- ReadVarint(data[p + 24..]);
      var q := p + 24 + len.size;
      if |data| - q < len.value then Err(ShortBuffer)
      else Ok(Parsed(
        SignatureBlock(data[0], vmid.value, nonce, Timestamp(stamp), data[q..q + len.value]),
        q + len.value))
  }

  /** "AIRE-SIG-v1" and a zero byte. */
  function DomainSeparator(): Bytes {
    Ascii("AIRE-SIG-v1") + [0]
  }

  function SignedMessage(ftype: byte, inner: Bytes, sb: SignatureBlock): Bytes
    requires |sb.vmid| <= MAX_VARINT
  {
    DomainSeparator() + [ftype] + inner + MetaBytes(sb)
  }

  lemma TimestampOfBytes(x: int64)
    ensures Timestamp(BigEndian(ToUnsigned(x), 8)) == x
  {
    PowersOf256();
    ValueOfFixed(ToUnsigned(x), 0x100, 8);
  }

  /** A block assembled from pieces whose readers give them back is read as those pieces. */
  lemma DecodePieces(name: Bytes, stamp: Bytes, len: Bytes, sb: SignatureBlock, tail: Bytes)
    requires |stamp| == 8 && Timestamp(stamp) == sb.timestampMs
    requires ReadString(name + (sb.nonce + stamp + len + sb.signature + tail)) == Ok(Parsed(sb.vmid, |name|))
    requires ReadVarint(len + (sb.signature + tail)) == Ok(Parsed(|sb.signature|, |len|))
    ensures DecodeBlock([sb.algorithm] + name + sb.nonce + stamp + len + sb.signature + tail)
         == Ok(Parsed(sb, 1 + |name| + 24 + |len| + |sb.signature|))
  {
    hide ReadVarint, ReadString, Timestamp;
    var data := [sb.algorithm] + name + sb.nonce + stamp + len + sb.signature + tail;
    var p := 1 + |name|;
    var q := p + 24 + |len|;
    assert data[1..] == name + (sb.nonce + stamp + len + sb.signature + tail);
    assert data[p..][..16] == sb.nonce;
    assert data[p + 16..][..8] == stamp;
    assert data[p + 24..] == len + (sb.signature + tail);
    assert data[q..q + |sb.signature|] == sb.signature;
  }

  /** A block decodes to itself, whatever follows it. */
  lemma DecodeEncodedBlock(sb: SignatureBlock, tail: Bytes)
    requires Encodable(sb)
    ensures DecodeBlock(EncodeBlock(sb) + tail) == Ok(Parsed(sb, |EncodeBlock(sb)|))
  {
    hide EncodeVarint, ReadVarint, EncodeString, ReadString, Timestamp, BigEndian, DecodeBlock;
    var name, stamp := EncodeString(sb.vmid), BigEndian(ToUnsigned(sb.timestampMs), 8);
    var len := EncodeVarint(|sb.signature|);
    ReadEncodedString(sb.vmid, sb.nonce + stamp + len + sb.signature + tail);
    ReadEncodedVarint(|sb.signature|, sb.signature + tail);
    TimestampOfBytes(sb.timestampMs);
    DecodePieces(name, stamp, len, sb, tail);
  }

  /** The covered metadata is self-delimiting: equal bytes mean equal fields. */
  lemma MetaBytesInjective(a: SignatureBlock, b: SignatureBlock)
    requires |a.vmid| <= MAX_VARINT && |b.vmid| <= MAX_VARINT
    requires MetaBytes(a) == MetaBytes(b)
    ensures a == b.(signature := a.signature)
  {
    var bare: SignatureBlock, bare': SignatureBlock := a.(signature := []), b.(signature := []);
    assert EncodeBlock(bare) == EncodeBlock(bare');
    DecodeEncodedBlock(bare, []);
    DecodeEncodedBlock(bare', []);
  }
}
