/**
 * The wire format as a grammar: which byte strings spell which value, written down
 * without any decoder. Each decoder is proved to accept exactly the grammar.
 */
module WireFormat {
  import opened Base
  import opened Numerals
  import opened Varint
  import opened Frames
  import opened Streaming
  import opened Capabilities
  import opened SignatureBlocks
  import opened HelloCodec
  import opened Operations
  import opened Budgets
  import opened BudgetRoundTrip
  import opened DidKey
  import opened Replay
  import opened Handshake

  // Variable-length integers

  /** Big-endian number of a given width. */
  function Number(b: seq<nat>): nat {
    match |b|
    case 1 => b[0]
    case 2 => b[0] * 0x100 + b[1]
    case 4 => b[0] * 0x100_0000 + b[1] * 0x1_0000 + b[2] * 0x100 + b[3]
    case 8 =>
      b[0] * 0x100_0000_0000_0000 + b[1] * 0x1_0000_0000_0000 + b[2] * 0x100_0000_0000 + b[3] * 0x1_0000_0000 +
      b[4] * 0x100_0000 + b[5] * 0x1_0000 + b[6] * 0x100 + b[7]
    case _ => 0
  }

  /** Section 16 of RFC 9000: the two high bits give the width, the rest the number. */
  predicate VarintText(b: Bytes, v: nat) {
    || (|b| == 1 && b[0] < 0x40 && Number(b) == v)
    || (|b| == 2 && 0x40 <= b[0] < 0x80 && Number(b) == 0x4000 + v)
    || (|b| == 4 && 0x80 <= b[0] < 0xC0 && Number(b) == 0x8000_0000 + v)
    || (|b| == 8 && 0xC0 <= b[0] && Number(b) == 0xC000_0000_0000_0000 + v)
  }

  lemma ValueOfSnoc(ds: seq<nat>, k: nat)
    requires k < |ds|
    ensures Value(ds[..k + 1], 0x100) == Value(ds[..k], 0x100) * 0x100 + ds[k]
  {
    assert ds[..k + 1][..k] == ds[..k];
  }

  lemma NumberIsValue(b: Bytes)
    requires |b| in {1, 2, 4, 8}
    ensures Number(b) == FromBigEndian(b)
  {
    assert b[..|b|] == b && Value(b[..0], 0x100) == 0;
    hide Value;
    ValueOfSnoc(b, 0);
    if |b| > 1 {
      ValueOfSnoc(b, 1);
    }
    if |b| > 2 {
      ValueOfSnoc(b, 2);
      ValueOfSnoc(b, 3);
    }
    if |b| > 4 {
      ValueOfSnoc(b, 4);
      ValueOfSnoc(b, 5);
      ValueOfSnoc(b, 6);
      ValueOfSnoc(b, 7);
    }
  }

  /** Clearing the length bits takes the length's share off the number. */
  lemma BareNumber(b: Bytes)
    requires |b| in {1, 2, 4, 8} && AnnouncedSize(b[0]) == |b|
    ensures VarintText(b, Number([b[0] % 0x40] + b[1..]))
  {
  }

  lemma TextSize(b: Bytes, v: nat)
    requires VarintText(b, v)
    ensures |b| in {1, 2, 4, 8} && AnnouncedSize(b[0]) == |b|
  {
  }

  lemma TextDeterminesValue(b: Bytes, v: nat, w: nat)
    requires VarintText(b, v) && VarintText(b, w)
    ensures v == w
  {
  }

  /** The varint reader accepts exactly the grammar, on every input. */
  lemma ReadVarintExactly(data: Bytes, v: nat, n: nat)
    ensures ReadVarint(data) == Ok(Parsed(v, n)) <==> n <= |data| && VarintText(data[..n], v)
  {
    hide VarintText, Number, FromBigEndian;
    if n <= |data| && VarintText(data[..n], v) {
      TextSize(data[..n], v);
    }
    if data != [] && AnnouncedSize(data[0]) <= |data| {
      var size := AnnouncedSize(data[0]);
      var b := data[..size];
      assert [b[0] % 0x40] + b[1..] == [data[0] % 0x40] + data[1..size];
      BareNumber(b);
      NumberIsValue([b[0] % 0x40] + b[1..]);
      if n == size && VarintText(data[..n], v) {
        TextDeterminesValue(b, v, Number([b[0] % 0x40] + b[1..]));
      }
    }
  }

  /** The encoder writes the one shortest text of a value. */
  lemma EncodeVarintExactly(v: nat, b: Bytes)
    requires v <= MAX_VARINT
    ensures b == EncodeVarint(v) <==> VarintText(b, v) && forall c: Bytes :: VarintText(c, v) ==> |b| <= |c|
  {
    hide VarintText, EncodeVarint, ReadVarint;
    var e := EncodeVarint(v);
    ReadEncodedVarint(v, []);
    assert e + [] == e && e[..|e|] == e;
    ReadVarintExactly(e, v, |e|);
    forall c: Bytes | VarintText(c, v)
      ensures |e| <= |c|
      ensures |e| == |c| ==> e == c
    {
      assert c[..|c|] == c;
      ReadVarintExactly(c, v, |c|);
      EncodingIsShortest(c);
      ReencodeExactly(c);
    }
  }

  lemma ReadVarintOf(b: Bytes, v: nat, tail: Bytes)
    requires VarintText(b, v)
    ensures ReadVarint(b + tail) == Ok(Parsed(v, |b|))
  {
    hide VarintText, ReadVarint;
    assert (b + tail)[..|b|] == b;
    ReadVarintExactly(b + tail, v, |b|);
  }

  lemma VarintOf(data: Bytes)
    requires ReadVarint(data).Ok?
    ensures var p := ReadVarint(data).value;
            VarintText(data[..p.size], p.value)
  {
    hide VarintText, ReadVarint;
    var p := ReadVarint(data).value;
    ReadVarintExactly(data, p.value, p.size);
  }

  // Strings

  predicate StringText(b: Bytes, s: Bytes) {
    |s| <= |b| && VarintText(b[..|b| - |s|], |s|) && b[|b| - |s|..] == s
  }

  lemma ReadStringOf(b: Bytes, s: Bytes, tail: Bytes)
    requires StringText(b, s)
    ensures ReadString(b + tail) == Ok(Parsed(s, |b|))
  {
    hide VarintText, ReadVarint;
    var len := b[..|b| - |s|];
    ReadVarintOf(len, |s|, s + tail);
    assert b + tail == len + (s + tail);
  }

  lemma StringOf(data: Bytes)
    requires ReadString(data).Ok?
    ensures var p := ReadString(data).value;
            StringText(data[..p.size], p.value)
  {
    hide VarintText, ReadVarint;
    VarintOf(data);
    var len, p := ReadVarint(data).value, ReadString(data).value;
    assert data[..p.size][..len.size] == data[..len.size];
    assert data[..p.size][len.size..] == data[len.size..p.size];
  }

  /** The string reader accepts exactly a length and that many bytes. */
  lemma ReadStringExactly(data: Bytes, s: Bytes, n: nat)
    ensures ReadString(data) == Ok(Parsed(s, n)) <==> n <= |data| && StringText(data[..n], s)
  {
    hide StringText, ReadString;
    if ReadString(data) == Ok(Parsed(s, n)) {
      StringOf(data);
    }
    if n <= |data| && StringText(data[..n], s) {
      ReadStringOf(data[..n], s, data[n..]);
      assert data == data[..n] + data[n..];
    }
  }

  // Frames

  ghost predicate FrameText(b: Bytes, f: Frame) {
    exists op: Bytes, len: Bytes ::
      VarintText(op, f.opId) && VarintText(len, |f.payload|) && b == [f.ftype, f.flags] + op + len + f.payload
  }

  /** A frame header that announces more than 1 MiB. */
  ghost predicate OversizeHeader(b: Bytes) {
    exists head: Bytes, op: Bytes, len: Bytes, id: nat, size: nat ::
      |head| == 2 && VarintText(op, id) && VarintText(len, size) && size > 1_048_576 && b == head + op + len
  }

  lemma HeaderOf(data: Bytes)
    requires |data| >= 2 && ReadVarint(data[2..]).Ok? && ReadVarint(data[2 + ReadVarint(data[2..]).value.size..]).Ok?
    ensures var op := ReadVarint(data[2..]).value;
            var len := ReadVarint(data[2 + op.size..]).value;
            var p, q := 2 + op.size, 2 + op.size + len.size;
            && VarintText(data[2..p], op.value) && VarintText(data[p..q], len.value)
            && data[..q] == data[..2] + data[2..p] + data[p..q]
  {
    hide VarintText, ReadVarint;
    var op := ReadVarint(data[2..]).value;
    VarintOf(data[2..]);
    VarintOf(data[2 + op.size..]);
    assert data[2..][..op.size] == data[2..2 + op.size];
    var len := ReadVarint(data[2 + op.size..]).value;
    assert data[2 + op.size..][..len.size] == data[2 + op.size..2 + op.size + len.size];
  }

  lemma FrameOf(data: Bytes)
    requires DecodeFrame(data).Ok?
    ensures var p := DecodeFrame(data).value;
            FrameText(data[..p.size], p.value) && |p.value.payload| <= 1_048_576
  {
    hide VarintText, ReadVarint;
    HeaderOf(data);
    var n, op := DecodeFrame(data).value.size, ReadVarint(data[2..]).value;
    var p := 2 + op.size;
    var q := p + ReadVarint(data[p..]).value.size;
    var f := DecodeFrame(data).value.value;
    assert data[..n] == data[..q] + data[q..n];
    assert data[..2] == [f.ftype, f.flags];
    assert data[..n] == [f.ftype, f.flags] + data[2..p] + data[p..q] + f.payload;
  }

  lemma DecodeFrameOf(b: Bytes, f: Frame, tail: Bytes)
    requires FrameText(b, f) && |f.payload| <= 1_048_576
    ensures DecodeFrame(b + tail) == Ok(Parsed(f, |b|))
  {
    hide VarintText, ReadVarint, DecodeFrame;
    var op: Bytes, len: Bytes :|
      VarintText(op, f.opId) && VarintText(len, |f.payload|) && b == [f.ftype, f.flags] + op + len + f.payload;
    ReadVarintOf(op, f.opId, len + (f.payload + tail));
    ReadVarintOf(len, |f.payload|, f.payload + tail);
    DecodeParts([f.ftype, f.flags], op, len, f.payload, tail, f.opId);
  }

  lemma OversizeOf(b: Bytes, tail: Bytes)
    requires OversizeHeader(b)
    ensures DecodeFrame(b + tail) == Err(FrameTooLarge)
  {
    hide VarintText, ReadVarint;
    var head: Bytes, op: Bytes, len: Bytes, id: nat, size: nat :|
      |head| == 2 && VarintText(op, id) && VarintText(len, size) && size > 1_048_576 && b == head + op + len;
    ReadVarintOf(op, id, len + tail);
    ReadVarintOf(len, size, tail);
    assert (b + tail)[2..] == op + (len + tail);
    assert (b + tail)[2 + |op|..] == len + tail;
  }

  /**
   * The frame decoder accepts exactly the frames of at most 1 MiB payload, rejects
   * as too large exactly what starts with a header announcing more, and
   * reports everything else as a short buffer.
   */
  lemma DecodeFrameExactly(data: Bytes, f: Frame, n: nat)
    ensures DecodeFrame(data) == Ok(Parsed(f, n)) <==>
            n <= |data| && |f.payload| <= 1_048_576 && FrameText(data[..n], f)
    ensures DecodeFrame(data) == Err(FrameTooLarge) <==> exists k: nat :: k <= |data| && OversizeHeader(data[..k])
    ensures DecodeFrame(data).Err? ==> DecodeFrame(data).error in {ShortBuffer, FrameTooLarge}
  {
    hide FrameText, OversizeHeader, DecodeFrame, VarintText;
    if DecodeFrame(data) == Ok(Parsed(f, n)) {
      FrameOf(data);
    }
    if n <= |data| && |f.payload| <= 1_048_576 && FrameText(data[..n], f) {
      DecodeFrameOf(data[..n], f, data[n..]);
      assert data == data[..n] + data[n..];
    }
    if DecodeFrame(data) == Err(FrameTooLarge) {
      TooLargeHasHeader(data);
    }
    forall k: nat | k <= |data| && OversizeHeader(data[..k])
      ensures DecodeFrame(data) == Err(FrameTooLarge)
    {
      OversizeOf(data[..k], data[k..]);
      assert data == data[..k] + data[k..];
    }
  }

  /** A cut frame, its varints in whatever form, ends in plain io.EOF exactly at the boundaries of the reader's reads. */
  lemma CutTextEnd(f: Frame, op: Bytes, len: Bytes, k: nat)
    requires VarintText(op, f.opId) && VarintText(len, |f.payload|) && |f.payload| <= 1_048_576
    requires k < |[f.ftype, f.flags] + op + len + f.payload|
    ensures var data := ([f.ftype, f.flags] + op + len + f.payload)[..k];
            && DecodeFrame(data) == Err(ShortBuffer)
            && FrameEndError(data) ==
               if k in {0, 2, 3, 2 + |op|, 3 + |op|, 2 + |op| + |len|} then Eof else UnexpectedEof
  {
    hide VarintText, ReadVarint, FrameEndError, DecodeFrame, FrameText;
    var b := [f.ftype, f.flags] + op + len + f.payload;
    ReadVarintOf(op, f.opId, len + f.payload);
    ReadVarintOf(len, |f.payload|, f.payload);
    CutPiecesEnd([f.ftype, f.flags], op, len, f.payload, k);
    EndErrors(b[..k]);
    assert FrameText(b, f) by {
      IsFrameText(f, op, len);
    }
    DecodeFrameOf(b, f, []);
    assert b + [] == b && b[..k] + b[k..] == b;
    if DecodeFrame(b[..k]) != Err(ShortBuffer) {
      DecodeFrameSettles(b[..k], b[k..]);
      assert false;
    }
  }

  lemma IsFrameText(f: Frame, op: Bytes, len: Bytes)
    requires VarintText(op, f.opId) && VarintText(len, |f.payload|)
    ensures FrameText([f.ftype, f.flags] + op + len + f.payload, f)
  {
    hide VarintText;
  }

  lemma TooLargeHasHeader(data: Bytes)
    requires DecodeFrame(data) == Err(FrameTooLarge)
    ensures exists k: nat :: k <= |data| && OversizeHeader(data[..k])
  {
    hide VarintText, ReadVarint;
    HeaderOf(data);
    var op := ReadVarint(data[2..]).value;
    var p := 2 + op.size;
    var len := ReadVarint(data[p..]).value;
    var q := p + len.size;
    assert |data[..2]| == 2 && VarintText(data[2..p], op.value) && VarintText(data[p..q], len.value);
    assert OversizeHeader(data[..q]);
  }

  lemma EncodedVarintText(v: nat)
    requires v <= MAX_VARINT
    ensures VarintText(EncodeVarint(v), v)
    ensures forall c: Bytes :: VarintText(c, v) ==> |EncodeVarint(v)| <= |c|
  {
    hide VarintText, EncodeVarint;
    EncodeVarintExactly(v, EncodeVarint(v));
  }

  /** The frame encoder writes the shortest text of a frame, oversize ones included. */
  lemma EncodeFrameExactly(f: Frame)
    requires Frames.Encodable(f)
    ensures FrameText(EncodeFrame(f), f)
    ensures forall b: Bytes :: FrameText(b, f) ==> |EncodeFrame(f)| <= |b|
  {
    hide VarintText, EncodeVarint;
    EncodedVarintText(f.opId);
    EncodedVarintText(|f.payload|);
  }

  // Signature blocks

  /** Eight big-endian bytes in two's complement. */
  predicate StampText(b: Bytes, ms: int64) {
    |b| == 8 && Number(b) == if ms < 0 then 0x1_0000_0000_0000_0000 + ms else ms
  }

  lemma StampExactly(b: Bytes, ms: int64)
    requires |b| == 8
    ensures Timestamp(b) == ms <==> StampText(b, ms)
  {
    hide Number, Value, Pow;
    NumberIsValue(b);
    PowersOf256();
    ValueBound(b, 0x100);
  }

  /** The part of a block that its signature covers: algorithm, VMID, nonce, timestamp. */
  ghost predicate CoveredText(b: Bytes, sb: SignatureBlock) {
    exists name: Bytes, stamp: Bytes ::
      StringText(name, sb.vmid) && StampText(stamp, sb.timestampMs) && b == [sb.algorithm] + name + sb.nonce + stamp
  }

  ghost predicate BlockText(b: Bytes, sb: SignatureBlock) {
    exists covered: Bytes, len: Bytes ::
      CoveredText(covered, sb) && VarintText(len, |sb.signature|) && b == covered + len + sb.signature
  }

  lemma DecodeBlockOf(b: Bytes, sb: SignatureBlock, tail: Bytes)
    requires BlockText(b, sb)
    ensures DecodeBlock(b + tail) == Ok(Parsed(sb, |b|))
  {
    hide VarintText, ReadVarint, StringText, ReadString, DecodeBlock, StampText, Timestamp;
    var covered: Bytes, len: Bytes :|
      CoveredText(covered, sb) && VarintText(len, |sb.signature|) && b == covered + len + sb.signature;
    var name: Bytes, stamp: Bytes :|
      StringText(name, sb.vmid) && StampText(stamp, sb.timestampMs) && covered == [sb.algorithm] + name + sb.nonce + stamp;
    assert |stamp| == 8 by {
      StampWidth(stamp, sb.timestampMs);
    }
    StampExactly(stamp, sb.timestampMs);
    ReadStringOf(name, sb.vmid, sb.nonce + stamp + len + sb.signature + tail);
    ReadVarintOf(len, |sb.signature|, sb.signature + tail);
    DecodePieces(name, stamp, len, sb, tail);
  }

  lemma StampWidth(b: Bytes, ms: int64)
    requires StampText(b, ms)
    ensures |b| == 8
  {
  }

  lemma BlockOfData(data: Bytes)
    requires DecodeBlock(data).Ok?
    ensures var p := DecodeBlock(data).value;
            BlockText(data[..p.size], p.value)
  {
    hide VarintText, ReadVarint, StringText, ReadString, StampText, Timestamp;
    var sb, n := DecodeBlock(data).value.value, DecodeBlock(data).value.size;
    var p := 1 + ReadString(data[1..]).value.size;
    StringOf(data[1..]);
    VarintOf(data[p + 24..]);
    var q := p + 24 + ReadVarint(data[p + 24..]).value.size;
    assert data[1..][..p - 1] == data[1..p] && data[p + 24..][..q - p - 24] == data[p + 24..q];
    assert data[p..][..16] == data[p..p + 16] && data[p + 16..][..8] == data[p + 16..p + 24];
    StampExactly(data[p + 16..p + 24], sb.timestampMs);
    assert data[..p + 24] == [sb.algorithm] + data[1..p] + sb.nonce + data[p + 16..p + 24];
    assert CoveredText(data[..p + 24], sb);
    assert data[..n] == data[..p + 24] + data[p + 24..q] + sb.signature;
  }

  /** The block decoder accepts exactly the grammar. */
  lemma DecodeBlockExactly(data: Bytes, sb: SignatureBlock, n: nat)
    ensures DecodeBlock(data) == Ok(Parsed(sb, n)) <==> n <= |data| && BlockText(data[..n], sb)
  {
    hide BlockText, DecodeBlock;
    if DecodeBlock(data) == Ok(Parsed(sb, n)) {
      BlockOfData(data);
    }
    if n <= |data| && BlockText(data[..n], sb) {
      DecodeBlockOf(data[..n], sb, data[n..]);
      assert data == data[..n] + data[n..];
    }
  }

  /**
   * What is signed for a HELLO: "AIRE-SIG-v1", a zero byte and the type byte, then the
   * inner bytes, then the covered part of the block with the VMID's length
   * in its shortest form.
   */
  lemma SignedMessageExactly(inner: Bytes, sb: SignatureBlock)
    requires |sb.vmid| <= MAX_VARINT
    ensures exists covered: Bytes ::
              && CoveredText(covered, sb)
              && (forall other: Bytes :: CoveredText(other, sb) ==> |covered| <= |other|)
              && SignedMessage(FRAME_HELLO, inner, sb) ==
                 [0x41, 0x49, 0x52, 0x45, 0x2d, 0x53, 0x49, 0x47, 0x2d, 0x76, 0x31, 0x00, 0x01] + inner + covered
  {
    var sep: Bytes := [0x41, 0x49, 0x52, 0x45, 0x2d, 0x53, 0x49, 0x47, 0x2d, 0x76, 0x31, 0x00, 0x01];
    assert DomainSeparator() + [FRAME_HELLO] == sep;
    hide Ascii, CoveredText, MetaBytes;
    CoveredShortest(sb);
    assert SignedMessage(FRAME_HELLO, inner, sb) == sep + inner + MetaBytes(sb);
  }

  lemma CoveredShortest(sb: SignatureBlock)
    requires |sb.vmid| <= MAX_VARINT
    ensures CoveredText(MetaBytes(sb), sb)
    ensures forall other: Bytes :: CoveredText(other, sb) ==> |MetaBytes(sb)| <= |other|
  {
    hide StringText, EncodeString, StampText, BigEndian, ReadString, Timestamp;
    var name, stamp := EncodeString(sb.vmid), BigEndian(ToUnsigned(sb.timestampMs), 8);
    ReadEncodedString(sb.vmid, []);
    assert name + [] == name && name[..|name|] == name;
    ReadStringExactly(name, sb.vmid, |name|);
    TimestampOfBytes(sb.timestampMs);
    StampExactly(stamp, sb.timestampMs);
    forall other: Bytes | CoveredText(other, sb)
      ensures |MetaBytes(sb)| <= |other|
    {
      var name': Bytes, stamp': Bytes :|
        StringText(name', sb.vmid) && StampText(stamp', sb.timestampMs) && other == [sb.algorithm] + name' + sb.nonce + stamp';
      StampWidth(stamp', sb.timestampMs);
      assert name'[..|name'|] == name';
      ReadStringExactly(name', sb.vmid, |name'|);
      StringEncodingIsShortest(name');
    }
  }

  /** The block encoder writes the shortest text of a block. */
  lemma EncodeBlockExactly(sb: SignatureBlock)
    requires SignatureBlocks.Encodable(sb)
    ensures BlockText(EncodeBlock(sb), sb)
    ensures forall b: Bytes :: BlockText(b, sb) ==> |EncodeBlock(sb)| <= |b|
  {
    hide VarintText, EncodeVarint, CoveredText, MetaBytes;
    EncodedVarintText(|sb.signature|);
    CoveredShortest(sb);
  }

  // HELLO

  ghost predicate CapText(b: Bytes, c: Capability) {
    exists name: Bytes, version: Bytes ::
      StringText(name, c.name) && VarintText(version, c.version) && b == name + version + [if c.required then 0x01 else 0x00]
  }

  /** One after the other, `b` spells the capabilities. */
  ghost predicate CapsText(b: Bytes, caps: seq<Capability>) {
    exists parts: seq<Bytes> ::
      |parts| == |caps| && (forall i :: 0 <= i < |caps| ==> CapText(parts[i], caps[i])) && b == Flatten(parts)
  }

  ghost predicate HelloText(b: Bytes, h: Hello) {
    exists major: Bytes, minor: Bytes, id: Bytes, count: Bytes, caps: Bytes ::
      && VarintText(major, h.version.major) && VarintText(minor, h.version.minor) && StringText(id, h.nodeId)
      && VarintText(count, |h.caps|) && CapsText(caps, h.caps)
      && b == major + minor + id + count + caps
  }

  lemma DecodeCapOf(b: Bytes, c: Capability, tail: Bytes)
    requires CapText(b, c)
    ensures DecodeCap(b + tail) == Ok(Parsed(c, |b|))
  {
    hide VarintText, ReadVarint, StringText, ReadString;
    var req: Bytes := [if c.required then 0x01 else 0x00];
    var name: Bytes, version: Bytes :|
      StringText(name, c.name) && VarintText(version, c.version) && b == name + version + req;
    var data := b + tail;
    ReadStringOf(name, c.name, version + req + tail);
    ReadVarintOf(version, c.version, req + tail);
    assert data == name + (version + req + tail);
    assert data[|name|..] == version + (req + tail);
    assert data[|name| + |version|] == req[0];
  }

  lemma CapOf(data: Bytes)
    requires DecodeCap(data).Ok?
    ensures CapText(data[..DecodeCap(data).value.size], DecodeCap(data).value.value)
  {
    hide VarintText, ReadVarint, StringText, ReadString;
    var c, n := DecodeCap(data).value.value, DecodeCap(data).value.size;
    var p := ReadString(data).value.size;
    StringOf(data);
    VarintOf(data[p..]);
    assert data[p..][..n - 1 - p] == data[p..n - 1];
    assert data[..n] == data[..p] + data[p..n - 1] + [if c.required then 0x01 else 0x00];
  }

  lemma {:induction false} DecodeCapsOf(parts: seq<Bytes>, caps: seq<Capability>, tail: Bytes)
    requires |parts| == |caps| && forall i :: 0 <= i < |caps| ==> CapText(parts[i], caps[i])
    ensures DecodeCaps(Flatten(parts) + tail, |caps|) == Ok(Parsed(caps, |Flatten(parts)|))
  {
    hide CapText, DecodeCap;
    if caps != [] {
      var data, rest := Flatten(parts) + tail, Flatten(parts[1..]);
      assert data == parts[0] + (rest + tail);
      DecodeCapOf(parts[0], caps[0], rest + tail);
      assert data[|parts[0]|..] == rest + tail;
      DecodeCapsOf(parts[1..], caps[1..], tail);
      assert [caps[0]] + caps[1..] == caps;
    }
  }

  lemma {:induction false} CapsOf(data: Bytes, count: nat) returns (parts: seq<Bytes>)
    requires DecodeCaps(data, count).Ok?
    ensures var p := DecodeCaps(data, count).value;
            && |parts| == count && (forall i :: 0 <= i < count ==> CapText(parts[i], p.value[i]))
            && data[..p.size] == Flatten(parts)
    decreases count
  {
    hide CapText, DecodeCap;
    parts := [];
    if count > 0 {
      var first := DecodeCap(data).value;
      CapOf(data);
      var more := CapsOf(data[first.size..], count - 1);
      parts := [data[..first.size]] + more;
      var n := DecodeCaps(data, count).value.size;
      assert data[..n] == data[..first.size] + data[first.size..][..n - first.size];
    }
  }

  lemma CapsOfData(data: Bytes, count: nat)
    requires DecodeCaps(data, count).Ok?
    ensures var p := DecodeCaps(data, count).value;
            CapsText(data[..p.size], p.value)
  {
    hide CapText, DecodeCaps;
    var parts := CapsOf(data, count);
  }

  lemma DecodeCapsText(b: Bytes, caps: seq<Capability>, tail: Bytes)
    requires CapsText(b, caps)
    ensures DecodeCaps(b + tail, |caps|) == Ok(Parsed(caps, |b|))
  {
    hide CapText, DecodeCaps;
    var parts: seq<Bytes> :|
      |parts| == |caps| && (forall i :: 0 <= i < |caps| ==> CapText(parts[i], caps[i])) && b == Flatten(parts);
    DecodeCapsOf(parts, caps, tail);
  }

  lemma DecodeHelloOf(b: Bytes, h: Hello, tail: Bytes)
    requires HelloText(b, h)
    ensures DecodeHello(b + tail) == Ok(Parsed(h, |b|))
  {
    hide VarintText, ReadVarint, StringText, ReadString, CapText, DecodeCaps;
    var major: Bytes, minor: Bytes, id: Bytes, count: Bytes, caps: Bytes :|
      && VarintText(major, h.version.major) && VarintText(minor, h.version.minor) && StringText(id, h.nodeId)
      && VarintText(count, |h.caps|) && CapsText(caps, h.caps)
      && b == major + minor + id + count + caps;
    hide DecodeFields, CapsText;
    DecodeCapsText(caps, h.caps, tail);
    DecodeFieldsOf(major, minor, id, count, h, caps + tail);
    assert b + tail == major + minor + id + count + (caps + tail);
    assert (b + tail)[|major + minor + id + count|..] == caps + tail;
  }

  lemma DecodeFieldsOf(major: Bytes, minor: Bytes, id: Bytes, count: Bytes, h: Hello, tail: Bytes)
    requires VarintText(major, h.version.major) && VarintText(minor, h.version.minor)
    requires StringText(id, h.nodeId) && VarintText(count, |h.caps|)
    ensures DecodeFields(major + minor + id + count + tail)
         == Ok(Parsed((h.version, h.nodeId, |h.caps|), |major + minor + id + count|))
  {
    hide VarintText, ReadVarint, StringText, ReadString;
    FourParts(major, minor, id, count, tail);
    ReadVarintOf(major, h.version.major, minor + id + count + tail);
    ReadVarintOf(minor, h.version.minor, id + count + tail);
    ReadStringOf(id, h.nodeId, count + tail);
    ReadVarintOf(count, |h.caps|, tail);
  }

  lemma HelloOfData(data: Bytes)
    requires DecodeHello(data).Ok?
    ensures HelloText(data[..DecodeHello(data).value.size], DecodeHello(data).value.value)
  {
    hide VarintText, ReadVarint, StringText, ReadString, CapText, DecodeCaps;
    var h, n := DecodeHello(data).value.value, DecodeHello(data).value.size;
    var fields := DecodeFields(data).value;
    hide DecodeFields, Flatten;
    CapsOfData(data[fields.size..], |h.caps|);
    var p, q, r := FieldsOf(data, h);
    var k := fields.size;
    assert data[k..][..n - k] == data[k..n];
    FivePieces(data, p, q, r, k, n);
    hide CapsText, HelloText;
    IsHelloText(data[..p], data[p..q], data[q..r], data[r..k], data[k..n], h);
  }

  lemma IsHelloText(major: Bytes, minor: Bytes, id: Bytes, count: Bytes, caps: Bytes, h: Hello)
    requires VarintText(major, h.version.major) && VarintText(minor, h.version.minor) && StringText(id, h.nodeId)
    requires VarintText(count, |h.caps|) && CapsText(caps, h.caps)
    ensures HelloText(major + minor + id + count + caps, h)
  {
    hide VarintText, StringText, CapsText;
  }

  lemma FivePieces(data: Bytes, p: nat, q: nat, r: nat, k: nat, n: nat)
    requires p <= q <= r <= k <= n <= |data|
    ensures data[..n] == data[..p] + data[p..q] + data[q..r] + data[r..k] + data[k..n]
  {
  }

  /** Where the fields in front of the capabilities end. */
  lemma FieldsOf(data: Bytes, h: Hello) returns (p: nat, q: nat, r: nat)
    requires DecodeFields(data).Ok? && DecodeFields(data).value.value == (h.version, h.nodeId, |h.caps|)
    ensures p <= q <= r <= DecodeFields(data).value.size
    ensures VarintText(data[..p], h.version.major) && VarintText(data[p..q], h.version.minor)
    ensures StringText(data[q..r], h.nodeId) && VarintText(data[r..DecodeFields(data).value.size], |h.caps|)
  {
    hide VarintText, ReadVarint, StringText, ReadString;
    p := ReadVarint(data).value.size;
    q := p + ReadVarint(data[p..]).value.size;
    r := q + ReadString(data[q..]).value.size;
    VarintOf(data);
    VarintOf(data[p..]);
    StringOf(data[q..]);
    VarintOf(data[r..]);
    assert data[p..][..q - p] == data[p..q] && data[q..][..r - q] == data[q..r];
    var k := DecodeFields(data).value.size;
    assert data[r..][..k - r] == data[r..k];
  }

  /** The HELLO decoder accepts exactly the grammar, a required byte of 0 or 1 included. */
  lemma DecodeHelloExactly(data: Bytes, h: Hello, n: nat)
    ensures DecodeHello(data) == Ok(Parsed(h, n)) <==> n <= |data| && HelloText(data[..n], h)
    ensures DecodeHello(data).Err? ==> DecodeHello(data).error == MalformedHello
  {
    hide HelloText, DecodeHello;
    if DecodeHello(data) == Ok(Parsed(h, n)) {
      HelloOfData(data);
    }
    if n <= |data| && HelloText(data[..n], h) {
      DecodeHelloOf(data[..n], h, data[n..]);
      assert data == data[..n] + data[n..];
    }
  }

  /** The HELLO encoder writes the shortest text of a HELLO. */
  lemma EncodeHelloExactly(h: Hello)
    requires HelloEncodable(h)
    ensures HelloText(EncodeHello(h), h)
    ensures forall b: Bytes :: HelloText(b, h) ==> |EncodeHello(h)| <= |b|
  {
    hide HelloText, EncodeHello, DecodeHello;
    var e := EncodeHello(h);
    DecodeEncodedHello(h, []);
    assert e + [] == e && e[..|e|] == e;
    HelloOfData(e);
    forall b: Bytes | HelloText(b, h)
      ensures |e| <= |b|
    {
      DecodeHelloOf(b, h, []);
      assert b + [] == b;
      ReencodeHello(b, []);
    }
  }

  // The control stream

  /**
   * What a node makes of every byte sequence on its control stream: a frame in front is
   * judged, a header that announces too much is refused, anything else is an
   * end of input; only judging can change the cache.
   */
  lemma OutcomeExactly(rcv: Receiver, cache: Cache, data: Bytes, now: int)
    ensures forall f: Frame, n: nat :: n <= |data| && |f.payload| <= 1_048_576 && FrameText(data[..n], f) ==>
              Outcome(rcv, cache, data, now) == Judge(rcv, cache, f, now)
    ensures (exists k: nat :: k <= |data| && OversizeHeader(data[..k])) ==>
              Outcome(rcv, cache, data, now) == (cache, Err(FrameTooLarge))
    ensures DecodeFrame(data) == Err(ShortBuffer) ==>
              Outcome(rcv, cache, data, now) in {(cache, Err(Eof)), (cache, Err(UnexpectedEof))}
  {
    hide FrameText, OversizeHeader, DecodeFrame, Judge, FrameEndError;
    forall f: Frame, n: nat
      ensures DecodeFrame(data) == Ok(Parsed(f, n)) <==>
              n <= |data| && |f.payload| <= 1_048_576 && FrameText(data[..n], f)
      ensures DecodeFrame(data) == Err(FrameTooLarge) <==> exists k: nat :: k <= |data| && OversizeHeader(data[..k])
    {
      DecodeFrameExactly(data, f, n);
    }
    DecodeFrameExactly(data, Frame(0, 0, 0, []), 0);
    EndErrors(data);
  }

  /** The bytes behind the HELLO hold a block by the node's own DID, in the window, unseen and signed over this HELLO. */
  ghost predicate Credentials(rcv: Receiver, cache: Cache, payload: Bytes, hello: Hello, n: nat, now: int)
    requires n <= |payload|
  {
    && Ascii("did:") <= hello.nodeId
    && exists sb: SignatureBlock, m: nat ::
         && n <= m <= |payload| && BlockText(payload[n..m], sb) && |sb.vmid| <= MAX_VARINT
         && Cut(sb.vmid).0 == hello.nodeId && Valid(rcv, cache, payload[..n], sb, now)
  }

  ghost predicate Valid(rcv: Receiver, cache: Cache, inner: Bytes, sb: SignatureBlock, now: int)
    requires |sb.vmid| <= MAX_VARINT
  {
    && sb.algorithm == 0x01 && InWindow(rcv.window, now, sb.timestampMs) && !Anonymous(sb.vmid)
    && (Cut(sb.vmid).0 in cache ==> sb.nonce !in cache[Cut(sb.vmid).0])
    && exists key :: NamesKey(rcv.web, sb.vmid, key) && rcv.check(key, SignedMessage(0x01, inner, sb), sb.signature)
  }

  lemma ValidExactly(rcv: Receiver, cache: Cache, inner: Bytes, sb: SignatureBlock, now: int)
    requires |sb.vmid| <= MAX_VARINT
    ensures var call := Call(now, sb, SignedMessage(0x01, inner, sb), rcv.web, rcv.check);
            Step(cache, rcv.window, call).1.None? <==> Valid(rcv, cache, inner, sb, now)
  {
    hide Step, InWindow, Cut, NamesKey, Anonymous, SignedMessage;
    VerifyExactly(cache, rcv.window, Call(now, sb, SignedMessage(0x01, inner, sb), rcv.web, rcv.check));
  }

  lemma CredentialsExactly(rcv: Receiver, cache: Cache, payload: Bytes, hello: Parsed<Hello>, now: int)
    requires hello.size <= |payload| && hello.value.version.minor >= 2
    ensures Authenticate(rcv, cache, payload, hello, now).1.None? <==>
            Credentials(rcv, cache, payload, hello.value, hello.size, now)
  {
    hide BlockText, DecodeBlock, Step, Valid, SignedMessage, Ascii, Cut;
    var n, trailer := hello.size, payload[hello.size..];
    forall sb: SignatureBlock, m: nat | n <= m <= |payload|
      ensures DecodeBlock(trailer) == Ok(Parsed(sb, m - n)) <==> BlockText(payload[n..m], sb)
    {
      DecodeBlockExactly(trailer, sb, m - n);
      assert trailer[..m - n] == payload[n..m];
    }
    if DecodeBlock(trailer).Ok? {
      var b := DecodeBlock(trailer).value;
      ValidExactly(rcv, cache, payload[..n], b.value, now);
      assert BlockText(payload[n..n + b.size], b.value);
    }
  }

  /**
   * Completion, for every frame: a handshake completes with a state exactly when the
   * frame is of type 0x01 on operation 0, spells a HELLO of the same major, has
   * credentials behind it if the HELLO's minor is 2 or above, and negotiates;
   * the state holds the HELLO's node id, the lower minor and the negotiated set.
   */
  lemma CompletesExactly(rcv: Receiver, cache: Cache, f: Frame, now: int, st: HandshakeState)
    ensures Judge(rcv, cache, f, now).1 == Ok(st) <==>
            && f.ftype == 0x01 && f.opId == 0
            && exists hello: Hello, n: nat ::
                 && n <= |f.payload| && HelloText(f.payload[..n], hello) && hello.version.major == rcv.version.major
                 && (hello.version.minor >= 2 ==> Credentials(rcv, cache, f.payload, hello, n, now))
                 && Concludes(rcv, hello, Ok(st))
  {
    hide HelloText, DecodeHello, Credentials, Authenticate, Negotiate;
    forall hello: Hello, n: nat
      ensures DecodeHello(f.payload) == Ok(Parsed(hello, n)) <==> n <= |f.payload| && HelloText(f.payload[..n], hello)
    {
      DecodeHelloExactly(f.payload, hello, n);
    }
    if DecodeHello(f.payload).Ok? {
      var p := DecodeHello(f.payload).value;
      if p.value.version.minor >= 2 {
        CredentialsExactly(rcv, cache, f.payload, p, now);
      } else {
        OldNeedsNothing(rcv, cache, f.payload, p, now);
      }
    }
  }

  lemma OldNeedsNothing(rcv: Receiver, cache: Cache, payload: Bytes, hello: Parsed<Hello>, now: int)
    requires hello.size <= |payload| && hello.value.version.minor < 2
    ensures Authenticate(rcv, cache, payload, hello, now) == (cache, None)
  {
  }

  // INVOKE

  ghost predicate InvokeText(b: Bytes, q: Request) {
    exists agent: Bytes, name: Bytes ::
      StringText(agent, q.agentId) && StringText(name, q.operation) && b == agent + name + q.args
  }

  /** An INVOKE payload decodes to a request exactly when it spells it. */
  lemma DecodeInvokeExactly(payload: Bytes, q: Request)
    ensures DecodeInvoke(payload) == Ok(q) <==> InvokeText(payload, q)
  {
    hide StringText, ReadString;
    if DecodeInvoke(payload) == Ok(q) {
      var n := ReadString(payload).value.size;
      var m := n + ReadString(payload[n..]).value.size;
      StringOf(payload);
      StringOf(payload[n..]);
      assert payload[n..][..m - n] == payload[n..m];
      assert payload == payload[..n] + payload[n..m] + q.args;
    }
    if InvokeText(payload, q) {
      var agent: Bytes, name: Bytes :|
        StringText(agent, q.agentId) && StringText(name, q.operation) && payload == agent + name + q.args;
      ReadStringOf(agent, q.agentId, name + q.args);
      ReadStringOf(name, q.operation, q.args);
      assert payload == agent + (name + q.args);
      assert payload[|agent|..] == name + q.args;
      assert payload[|agent| + |name|..] == q.args;
    }
  }

  /** An agent is called exactly for an INVOKE frame that spells a request to it, and gets that request with these ids. */
  lemma DispatchExactly(agents: set<Bytes>, opId: nat, peerNodeId: Bytes, f: Frame, inv: Invoke)
    ensures Dispatch(agents, opId, peerNodeId, f) == Some(inv) <==>
            && f.ftype == 0x03 && InvokeText(f.payload, Request(inv.agentId, inv.operation, inv.args))
            && inv.agentId in agents && inv.opId == opId && inv.peerNodeId == peerNodeId
  {
    hide InvokeText, DecodeInvoke;
    DecodeInvokeExactly(f.payload, Request(inv.agentId, inv.operation, inv.args));
  }

  /** The INVOKE encoder writes the shortest text of a request. */
  lemma EncodeInvokeExactly(q: Request)
    requires RequestEncodable(q)
    ensures InvokeText(EncodeInvoke(q), q)
    ensures forall b: Bytes :: InvokeText(b, q) ==> |EncodeInvoke(q)| <= |b|
  {
    hide StringText, EncodeString;
    EncodedStringText(q.agentId);
    EncodedStringText(q.operation);
  }

  lemma EncodedStringText(s: Bytes)
    requires |s| <= MAX_VARINT
    ensures StringText(EncodeString(s), s)
    ensures forall b: Bytes :: StringText(b, s) ==> |EncodeString(s)| <= |b|
  {
    hide VarintText, EncodeVarint;
    EncodedVarintText(|s|);
    var e := EncodeString(s);
    assert e[..|e| - |s|] == EncodeVarint(|s|) && e[|e| - |s|..] == s;
  }

  // BUDGET

  ghost predicate EntryText(b: Bytes, e: Entry) {
    exists len: Bytes :: VarintText(len, |e.value|) && b == [e.fid] + len + e.value
  }

  /** A count and that many entries, one after the other. */
  ghost predicate EntriesText(b: Bytes, es: seq<Entry>) {
    exists count: Bytes, parts: seq<Bytes> ::
      && VarintText(count, |es|) && |parts| == |es|
      && (forall i :: 0 <= i < |es| ==> EntryText(parts[i], es[i]))
      && b == count + Flatten(parts)
  }

  lemma ReadEntryOf(b: Bytes, e: Entry, tail: Bytes)
    requires EntryText(b, e)
    ensures ReadEntry(b + tail) == Ok(Parsed(e, |b|))
  {
    hide VarintText, ReadVarint;
    var len: Bytes :| VarintText(len, |e.value|) && b == [e.fid] + len + e.value;
    ReadVarintOf(len, |e.value|, e.value + tail);
    assert (b + tail)[1..] == len + (e.value + tail);
    assert (b + tail)[1 + |len|..|b|] == e.value;
  }

  lemma EntryOf(data: Bytes)
    requires ReadEntry(data).Ok?
    ensures EntryText(data[..ReadEntry(data).value.size], ReadEntry(data).value.value)
  {
    hide VarintText, ReadVarint;
    var e, n := ReadEntry(data).value.value, ReadEntry(data).value.size;
    VarintOf(data[1..]);
    var p := 1 + ReadVarint(data[1..]).value.size;
    assert data[1..][..p - 1] == data[1..p];
    assert data[..n] == [e.fid] + data[1..p] + e.value;
  }

  lemma {:induction false} ParseEntriesOf(parts: seq<Bytes>, es: seq<Entry>)
    requires |parts| == |es| && forall i :: 0 <= i < |es| ==> EntryText(parts[i], es[i])
    ensures ParseEntries(Flatten(parts), |es|) == Some(es)
  {
    hide EntryText, ReadEntry;
    if es != [] {
      var rest := Flatten(parts[1..]);
      ReadEntryOf(parts[0], es[0], rest);
      assert (parts[0] + rest)[|parts[0]|..] == rest;
      ParseEntriesOf(parts[1..], es[1..]);
      assert [es[0]] + es[1..] == es;
    }
  }

  lemma {:induction false} EntriesOfData(data: Bytes, count: nat) returns (parts: seq<Bytes>)
    requires ParseEntries(data, count).Some?
    ensures var es := ParseEntries(data, count).value;
            |parts| == count && (forall i :: 0 <= i < count ==> EntryText(parts[i], es[i])) && data == Flatten(parts)
    decreases count
  {
    hide EntryText, ReadEntry;
    parts := [];
    if count > 0 {
      var first := ReadEntry(data).value;
      EntryOf(data);
      var more := EntriesOfData(data[first.size..], count - 1);
      parts := [data[..first.size]] + more;
      assert data == data[..first.size] + data[first.size..];
    }
  }

  /** A payload declares an entry list exactly when it spells it, with nothing left over. */
  lemma EntriesExactly(payload: Bytes, es: seq<Entry>)
    ensures Entries(payload) == Some(es) <==> EntriesText(payload, es)
  {
    hide VarintText, ReadVarint, EntryText, ParseEntries;
    if Entries(payload) == Some(es) {
      var num := ReadVarint(payload).value;
      VarintOf(payload);
      var parts := EntriesOfData(payload[num.size..], num.value);
      assert payload == payload[..num.size] + Flatten(parts);
    }
    if EntriesText(payload, es) {
      var count: Bytes, parts: seq<Bytes> :|
        && VarintText(count, |es|) && |parts| == |es|
        && (forall i :: 0 <= i < |es| ==> EntryText(parts[i], es[i]))
        && payload == count + Flatten(parts);
      ReadVarintOf(count, |es|, Flatten(parts));
      assert payload[|count|..] == Flatten(parts);
      ParseEntriesOf(parts, es);
    }
  }

  /** The BUDGET encoder writes the shortest text of an entry list. */
  lemma EncodeEntriesExactly(es: seq<Entry>)
    requires EntriesEncodable(es) && |es| <= MAX_VARINT
    ensures EntriesText(EncodeEntries(es), es)
    ensures forall b: Bytes :: EntriesText(b, es) ==> |EncodeEntries(es)| <= |b|
  {
    hide EntriesText, Entries, EncodeVarint, EncodeList, ReadVarint;
    EntriesOfEncoded(es);
    EntriesExactly(EncodeEntries(es), es);
    EncodedListSize(es);
    forall b: Bytes | EntriesText(b, es)
      ensures |EncodeEntries(es)| <= |b|
    {
      EntriesExactly(b, es);
      ListIsShortest(b, es);
    }
  }

  lemma ListIsShortest(b: Bytes, es: seq<Entry>)
    requires Entries(b) == Some(es) && |es| <= MAX_VARINT
    ensures |EncodeVarint(|es|)| + TotalSize(es) <= |b|
  {
    hide EncodeVarint, ReadVarint, ParseEntries, TotalSize;
    EncodingIsShortest(b);
    ParsedSize(b[ReadVarint(b).value.size..], |es|);
  }

  /** A number field may hold bytes behind its varint, which are ignored. */
  ghost predicate NumberText(value: Bytes, v: nat) {
    exists k: nat :: k <= |value| && VarintText(value[..k], v)
  }

  /** What an entry says about the budget; other field ids say nothing. */
  ghost predicate EntrySays(e: Entry, b: Budget) {
    && (e.fid == 0x01 ==> b.tokens.Some? && NumberText(e.value, b.tokens.value))
    && (e.fid == 0x02 ==> b.cost.Some? && NumberText(e.value, b.cost.value))
    && (e.fid == 0x03 ==> |e.value| == 3 && b.currency == e.value)
    && (e.fid == 0x04 ==> b.deadlineMs.Some? && StampText(e.value, b.deadlineMs.value))
  }

  ghost predicate HasField(es: seq<Entry>, fid: byte) {
    exists i :: 0 <= i < |es| && es[i].fid == fid
  }

  /** The budget holds what the entries say and nothing else. */
  ghost predicate EntriesSay(es: seq<Entry>, b: Budget) {
    && (forall i :: 0 <= i < |es| ==> EntrySays(es[i], b))
    && (b.tokens.Some? ==> HasField(es, 0x01)) && (b.cost.Some? ==> HasField(es, 0x02))
    && (b.currency != [] ==> HasField(es, 0x03)) && (b.deadlineMs.Some? ==> HasField(es, 0x04))
  }

  lemma NumberExactly(value: Bytes, v: nat)
    ensures NumberText(value, v) <==> ReadVarint(value).Ok? && ReadVarint(value).value.value == v
  {
    hide VarintText, ReadVarint;
    if ReadVarint(value).Ok? {
      VarintOf(value);
    }
    if NumberText(value, v) {
      var k: nat :| k <= |value| && VarintText(value[..k], v);
      ReadVarintExactly(value, v, k);
    }
  }

  /** One number field of the decoded budget against the entries. */
  lemma NumberFieldExactly(es: seq<Entry>, fid: byte, field: Option<nat>)
    requires Distinct(es)
    ensures (&& (forall e :: e in es && e.fid == fid ==> field.Some? && NumberText(e.value, field.value))
             && (field.Some? ==> HasField(es, fid)))
       <==> (&& (forall e :: e in es && e.fid == fid ==> ReadVarint(e.value).Ok?)
             && NumberField(Find(es, fid), None) == field)
  {
    hide ReadVarint, NumberText, Distinct;
    FindHas(es, fid);
    forall e, v: nat | e in es && e.fid == fid
      ensures Find(es, fid) == Some(e.value)
      ensures NumberText(e.value, v) <==> ReadVarint(e.value).Ok? && ReadVarint(e.value).value.value == v
    {
      FindIs(es, e);
      NumberExactly(e.value, v);
    }
    if Find(es, fid).Some? {
      var e := Entry(fid, Find(es, fid).value);
      assert e in es;
      var i :| 0 <= i < |es| && es[i] == e;
      assert HasField(es, fid);
    }
  }

  lemma CurrencyExactly(es: seq<Entry>, currency: Bytes)
    requires Distinct(es)
    ensures (&& (forall e :: e in es && e.fid == 0x03 ==> |e.value| == 3 && currency == e.value)
             && (currency != [] ==> HasField(es, 0x03)))
       <==> (&& (forall e :: e in es && e.fid == 0x03 ==> |e.value| == 3)
             && (match Find(es, CURRENCY) case Some(v) => v case None => []) == currency)
  {
    hide Distinct;
    FindHas(es, 0x03);
    forall e | e in es && e.fid == 0x03
      ensures Find(es, 0x03) == Some(e.value)
    {
      FindIs(es, e);
    }
    if Find(es, 0x03).Some? {
      var i :| 0 <= i < |es| && es[i] == Entry(0x03, Find(es, 0x03).value);
      assert HasField(es, 0x03);
    }
  }

  lemma DeadlineExactly(es: seq<Entry>, ms: Option<int64>)
    requires Distinct(es)
    ensures (&& (forall e :: e in es && e.fid == 0x04 ==> ms.Some? && StampText(e.value, ms.value))
             && (ms.Some? ==> HasField(es, 0x04)))
       <==> (&& (forall e :: e in es && e.fid == 0x04 ==> |e.value| == 8)
             && (var d := Find(es, DEADLINE);
                 (if d.Some? && |d.value| == 8 then Some(Timestamp(d.value)) else None) == ms))
  {
    hide Distinct, StampText, Timestamp;
    FindHas(es, 0x04);
    forall e, v: int64 | e in es && e.fid == 0x04
      ensures Find(es, 0x04) == Some(e.value)
      ensures StampText(e.value, v) <==> |e.value| == 8 && Timestamp(e.value) == v
    {
      FindIs(es, e);
      if StampText(e.value, v) {
        StampWidth(e.value, v);
      }
      if |e.value| == 8 {
        StampExactly(e.value, v);
      }
    }
    if Find(es, 0x04).Some? {
      var i :| 0 <= i < |es| && es[i] == Entry(0x04, Find(es, 0x04).value);
      assert HasField(es, 0x04);
    }
  }

  lemma OverlayExactly(es: seq<Entry>, b: Budget)
    requires Distinct(es)
    ensures EntriesSay(es, b) <==> Acceptable(es) && Overlay(EMPTY, es) == b
  {
    hide ReadVarint, NumberText, StampText, Timestamp, HasField, Find, Distinct, NumberField;
    NumberFieldExactly(es, 0x01, b.tokens);
    NumberFieldExactly(es, 0x02, b.cost);
    CurrencyExactly(es, b.currency);
    DeadlineExactly(es, b.deadlineMs);
    assert forall e :: e in es ==> exists i :: 0 <= i < |es| && es[i] == e;
    assert (forall i :: 0 <= i < |es| ==> EntrySays(es[i], b)) <==> (forall e :: e in es ==> EntrySays(e, b));
  }

  /** A BUDGET payload decodes to a budget exactly when it spells entries of different ids that say that budget. */
  lemma DecodeBudgetExactly(payload: Bytes, b: Budget)
    ensures DecodeBudget(payload) == Ok(b) <==>
            exists es: seq<Entry> ::
              EntriesText(payload, es) && es != [] && EntriesSay(es, b) &&
              forall i, j :: 0 <= i < j < |es| ==> es[i].fid != es[j].fid
  {
    hide DecodeBudget, Entries, Acceptable, Overlay, EntriesText, EntriesSay;
    BudgetMeaning(payload);
    forall es: seq<Entry>
      ensures Entries(payload) == Some(es) <==> EntriesText(payload, es)
    {
      EntriesExactly(payload, es);
    }
    forall es: seq<Entry> | Distinct(es)
      ensures EntriesSay(es, b) <==> Acceptable(es) && Overlay(EMPTY, es) == b
    {
      OverlayExactly(es, b);
    }
    if Entries(payload).Some? && Acceptable(Entries(payload).value) {
      AcceptableIsDistinct(Entries(payload).value);
    }
  }

  lemma AcceptableIsDistinct(es: seq<Entry>)
    requires Acceptable(es)
    ensures Distinct(es)
  {
  }

  ghost predicate Ascending(es: seq<Entry>) {
    forall i, j :: 0 <= i < j < |es| ==> es[i].fid < es[j].fid
  }

  /** The entry of a present field, numbers in shortest form. */
  ghost predicate EntryFor(e: Entry, b: Budget)
    requires BudgetEncodable(b)
  {
    || (e.fid == 0x01 && b.tokens.Some? && e.value == EncodeVarint(b.tokens.value))
    || (e.fid == 0x02 && b.cost.Some? && e.value == EncodeVarint(b.cost.value))
    || (e.fid == 0x03 && b.currency != [] && e.value == b.currency)
    || (e.fid == 0x04 && b.deadlineMs.Some? && StampText(e.value, b.deadlineMs.value))
  }

  lemma SameLast(es: seq<Entry>, fs: seq<Entry>)
    requires Ascending(es) && Ascending(fs) && es != [] && fs != []
    requires forall e :: e in es <==> e in fs
    ensures es[|es| - 1] == fs[|fs| - 1]
  {
    assert es[|es| - 1] in fs && fs[|fs| - 1] in es;
  }

  /** All entries but the last are those different from it. */
  lemma WithoutLast(es: seq<Entry>)
    requires Ascending(es) && es != []
    ensures var init, last := es[..|es| - 1], es[|es| - 1];
            && Ascending(init) && es == init + [last]
            && forall x :: x in init <==> x in es && x != last
  {
    var init, last := es[..|es| - 1], es[|es| - 1];
    assert last !in init;
    assert forall x :: x in es <==> x in init || x == last;
  }

  lemma {:induction false} AscendingUnique(es: seq<Entry>, fs: seq<Entry>)
    requires Ascending(es) && Ascending(fs) && forall e :: e in es <==> e in fs
    ensures es == fs
  {
    hide Ascending;
    assert (es != [] ==> es[0] in fs) && (fs != [] ==> fs[0] in es);
    if es != [] && fs != [] {
      SameLast(es, fs);
      WithoutLast(es);
      WithoutLast(fs);
      AscendingUnique(es[..|es| - 1], fs[..|fs| - 1]);
    }
  }

  /** The only eight bytes that spell a timestamp. */
  lemma StampBytes(b: Bytes, ms: int64)
    ensures StampText(b, ms) <==> b == BigEndian(ToUnsigned(ms), 8)
  {
    hide StampText, BigEndian, Timestamp, FromBigEndian;
    TimestampOfBytes(ms);
    StampExactly(BigEndian(ToUnsigned(ms), 8), ms);
    if StampText(b, ms) {
      StampWidth(b, ms);
      StampExactly(b, ms);
      SameStamp(b, BigEndian(ToUnsigned(ms), 8));
    }
  }

  lemma SameStamp(b: Bytes, c: Bytes)
    requires |b| == 8 && |c| == 8 && Timestamp(b) == Timestamp(c)
    ensures b == c
  {
    hide Value, Fixed, Pow;
    PowersOf256();
    ValueBound(b, 0x100);
    ValueBound(c, 0x100);
    FixedOfValue(b, 0x100);
    FixedOfValue(c, 0x100);
  }

  lemma CanonicalIsAscending(b: Budget)
    requires BudgetEncodable(b)
    ensures Ascending(CanonicalEntries(b))
    ensures forall e :: e in CanonicalEntries(b) <==> EntryFor(e, b)
  {
    hide StampText, EncodeVarint, BigEndian;
    forall value: Bytes | b.deadlineMs.Some?
      ensures StampText(value, b.deadlineMs.value) <==> value == BigEndian(ToUnsigned(b.deadlineMs.value), 8)
    {
      StampBytes(value, b.deadlineMs.value);
    }
  }

  /** An encoded budget holds exactly the entries of its present fields, by ascending id. */
  lemma EncodeBudgetExactly(b: Budget, es: seq<Entry>)
    requires BudgetEncodable(b)
    ensures Entries(EncodeBudget(b)) == Some(es) <==> Ascending(es) && forall e :: e in es <==> EntryFor(e, b)
  {
    hide Entries, EntryFor, CanonicalEntries, Ascending, EncodeEntries;
    EntriesOfEncoded(CanonicalEntries(b));
    CanonicalIsAscending(b);
    if Ascending(es) && forall e :: e in es <==> EntryFor(e, b) {
      AscendingUnique(es, CanonicalEntries(b));
    }
  }

  // Which failures of a BUDGET payload are a short buffer

  function Ids(es: seq<Entry>): set<byte> {
    set e | e in es :: e.fid
  }

  /** The next entry's length is cut off, or its number is; the number counts only if the field is new. */
  predicate CutEntry(rest: Bytes, used: set<byte>) {
    && rest != []
    && (|| ReadVarint(rest[1..]).Err?
        || (ReadEntry(rest).Ok? && var e := ReadEntry(rest).value.value;
            e.fid !in used && e.fid in {0x01, 0x02} && ReadVarint(e.value).Err?))
  }

  /** `n` good entries with new ids, then a cut one. */
  ghost predicate CutAfter(data: Bytes, m: nat, n: nat, seen: set<byte>) {
    && m <= |data|
    && var es := ParseEntries(data[..m], n);
    && es.Some? && Acceptable(es.value) && Ids(es.value) !! seen
    && CutEntry(data[m..], seen + Ids(es.value))
  }

  lemma EntryInPrefix(data: Bytes, m: nat)
    requires m <= |data|
    ensures ReadEntry(data[..m]).Ok? ==> ReadEntry(data) == ReadEntry(data[..m])
    ensures ReadEntry(data).Ok? && ReadEntry(data).value.size <= m ==> ReadEntry(data[..m]) == ReadEntry(data)
  {
    hide ReadEntry, EntryText;
    if ReadEntry(data[..m]).Ok? {
      var p := ReadEntry(data[..m]).value;
      EntryOf(data[..m]);
      assert data[..m][..p.size] == data[..p.size];
      ReadEntryOf(data[..p.size], p.value, data[p.size..]);
      assert data == data[..p.size] + data[p.size..];
    }
    if ReadEntry(data).Ok? && ReadEntry(data).value.size <= m {
      var p := ReadEntry(data).value;
      EntryOf(data);
      ReadEntryOf(data[..p.size], p.value, data[p.size..m]);
      assert data[..m] == data[..p.size] + data[p.size..m];
    }
  }

  lemma IdsCons(e: Entry, rest: seq<Entry>)
    ensures Ids([e] + rest) == {e.fid} + Ids(rest)
  {
    assert forall x :: x in [e] + rest <==> x == e || x in rest;
  }

  /** Taking the first entry off keeps the place of the cut. */
  lemma CutAfterFirst(data: Bytes, m: nat, n: nat, seen: set<byte>, e: Parsed<Entry>)
    requires ReadEntry(data) == Ok(e) && e.size <= m <= |data| && n > 0
    ensures CutAfter(data, m, n, seen) <==>
            WellTyped(e.value) && e.value.fid !in seen && CutAfter(data[e.size..], m - e.size, n - 1, seen + {e.value.fid})
  {
    hide ReadEntry, WellTyped, CutEntry, Acceptable, Ids;
    EntryInPrefix(data, m);
    assert data[e.size..][..m - e.size] == data[..m][e.size..];
    assert data[e.size..][m - e.size..] == data[m..];
    var rest := ParseEntries(data[..m][e.size..], n - 1);
    if rest.Some? {
      AcceptableCons(e.value, rest.value);
      IdsCons(e.value, rest.value);
      NotAmong(e.value.fid, rest.value);
      assert seen + ({e.value.fid} + Ids(rest.value)) == seen + {e.value.fid} + Ids(rest.value);
    }
  }

  lemma NotAmong(fid: byte, es: seq<Entry>)
    ensures fid !in Ids(es) <==> forall x :: x in es ==> x.fid != fid
  {
  }

  /** Some number of good entries below `count` is followed by a cut one. */
  ghost predicate Cuts(data: Bytes, count: nat, seen: set<byte>) {
    exists m: nat, n: nat :: n < count && CutAfter(data, m, n, seen)
  }

  /** Either the first entry is cut, or it is good and the rest has a cut. */
  lemma CutsUnfold(data: Bytes, count: nat, seen: set<byte>)
    requires count > 0
    ensures Cuts(data, count, seen) <==>
            || CutEntry(data, seen)
            || (ReadEntry(data).Ok? && var e := ReadEntry(data).value;
                WellTyped(e.value) && e.value.fid !in seen && Cuts(data[e.size..], count - 1, seen + {e.value.fid}))
  {
    hide ReadEntry, WellTyped, CutEntry, CutAfter;
    CutAtOnce(data, seen);
    if Cuts(data, count, seen) && !CutEntry(data, seen) {
      var m: nat, n: nat :| n < count && CutAfter(data, m, n, seen);
      assert n > 0;
      CutInside(data, m, n, seen);
      CutHasFirst(data, m, n, seen);
      CutAfterFirst(data, m, n, seen, ReadEntry(data).value);
    }
    if ReadEntry(data).Ok? {
      var e := ReadEntry(data).value;
      if WellTyped(e.value) && e.value.fid !in seen && Cuts(data[e.size..], count - 1, seen + {e.value.fid}) {
        var m: nat, n: nat :| n < count - 1 && CutAfter(data[e.size..], m, n, seen + {e.value.fid});
        CutInside(data[e.size..], m, n, seen + {e.value.fid});
        CutAfterFirst(data, m + e.size, n + 1, seen, e);
      }
    }
  }

  lemma {:induction false} RestCutExactly(data: Bytes, count: nat, seen: set<byte>, b: Budget)
    ensures DecodeRest(data, count, seen, b) == Err(ShortBuffer) <==> Cuts(data, count, seen)
    decreases count
  {
    if count > 0 {
      CutsUnfold(data, count, seen);
      EntryErrors(data);
      hide ReadVarint, ReadEntry, Cuts, WellTyped, Apply;
      if ReadEntry(data).Ok? {
        var e := ReadEntry(data).value;
        ApplyErrors(b, e.value);
        if Apply(b, e.value).Ok? {
          RestCutExactly(data[e.size..], count - 1, seen + {e.value.fid}, Apply(b, e.value).value);
        }
      }
    }
  }

  lemma EntryErrors(data: Bytes)
    ensures ReadEntry(data) == Err(ShortBuffer) <==> data != [] && ReadVarint(data[1..]).Err?
  {
    hide ReadVarint;
  }

  lemma CutInside(data: Bytes, m: nat, n: nat, seen: set<byte>)
    requires CutAfter(data, m, n, seen)
    ensures m <= |data|
  {
  }

  lemma CutHasFirst(data: Bytes, m: nat, n: nat, seen: set<byte>)
    requires n > 0 && CutAfter(data, m, n, seen)
    ensures ReadEntry(data).Ok? && ReadEntry(data).value.size <= m
  {
    hide ReadEntry, CutEntry, Acceptable;
    EntryInPrefix(data, m);
  }

  lemma ApplyErrors(b: Budget, e: Entry)
    ensures Apply(b, e).Ok? <==> WellTyped(e)
    ensures Apply(b, e) == Err(ShortBuffer) <==> e.fid in {0x01, 0x02} && ReadVarint(e.value).Err?
  {
    hide ReadVarint, Timestamp;
  }

  /** With no good entry in front, the first one is cut. */
  lemma CutAtOnce(data: Bytes, seen: set<byte>)
    ensures forall m: nat :: CutAfter(data, m, 0, seen) ==> m == 0
    ensures CutAfter(data, 0, 0, seen) <==> CutEntry(data, seen)
  {
    hide CutEntry;
    assert data[..0] == [] && data[0..] == data;
    assert Ids([]) == {} && seen + {} == seen;
  }

  /** A payload fails with a short buffer exactly when its count, a length or the number of a new field is cut off. */
  lemma BudgetCutExactly(payload: Bytes)
    ensures DecodeBudget(payload) == Err(ShortBuffer) <==>
            || ReadVarint(payload).Err?
            || (var num := ReadVarint(payload).value;
                Cuts(payload[num.size..], num.value, {}))
  {
    hide ReadVarint, Cuts, ReadEntry;
    if ReadVarint(payload).Ok? {
      var num := ReadVarint(payload).value;
      RestCutExactly(payload[num.size..], num.value, {}, EMPTY);
    }
  }
}
