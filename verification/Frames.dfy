/** The frame envelope: type, flags, operation id, payload length, payload. */
module Frames {
  import opened Base
  import opened Varint

  const FRAME_HELLO: byte := 0x01
  const FRAME_INVOKE: byte := 0x03

  const MAX_FRAME_SIZE: nat := 0x10_0000

  datatype Frame = Frame(ftype: byte, flags: byte, opId: nat, payload: Bytes)

  /** What the encoder can write without panicking. */
  predicate Encodable(f: Frame) {
    f.opId <= MAX_VARINT && |f.payload| <= MAX_VARINT
  }

  /** What a receiver will also accept; senders do not check the payload size. */
  predicate Deliverable(f: Frame) {
    f.opId <= MAX_VARINT && |f.payload| <= MAX_FRAME_SIZE
  }

  predicate AllDeliverable(fs: seq<Frame>) {
    forall i :: 0 <= i < |fs| ==> Deliverable(fs[i])
  }

  function EncodeFrame(f: Frame): (b: Bytes)
    requires Encodable(f)
    ensures |b| >= 4
  {
    [f.ftype, f.flags] + EncodeVarint(f.opId) + EncodeVarint(|f.payload|) + f.payload
  }

  function DecodeFrame(data: Bytes): (r: Result<Parsed<Frame>>)
    ensures r.Ok? ==> 4 <= r.value.size <= |data| && |r.value.value.payload| <= MAX_FRAME_SIZE
    ensures r.Err? ==> r.error == ShortBuffer || r.error == FrameTooLarge
  {
    if |data| < 2 then Err(ShortBuffer)
    else
      var op :- ReadVarint(data[2..]);
      var len :- ReadVarint(data[2 + op.size..]);
      var pos := 2 + op.size + len.size;
      if len.value > MAX_FRAME_SIZE then Err(FrameTooLarge)
      else if |data| - pos < len.value then Err(ShortBuffer)
      else Ok(Parsed(Frame(data[0], data[1], op.value, data[pos..pos + len.value]), pos + len.value))
  }

  function EncodeFrames(fs: seq<Frame>): Bytes
    requires AllDeliverable(fs)
  {
    if fs == [] then [] else EncodeFrames(fs[..|fs| - 1]) + EncodeFrame(fs[|fs| - 1])
  }

  /** Decodes frame after frame until the data is used up. */
  function DecodeFrames(data: Bytes): Result<seq<Frame>>
    decreases |data|
  {
    if data == [] then Ok([])
    else
      var first :- DecodeFrame(data);
      var rest :- DecodeFrames(data[first.size..]);
      Ok([first.value] + rest)
  }

  lemma DecodeParts(head: Bytes, op: Bytes, len: Bytes, payload: Bytes, tail: Bytes, opId: nat)
    requires |head| == 2 && |payload| <= MAX_FRAME_SIZE
    requires ReadVarint(op + (len + (payload + tail))) == Ok(Parsed(opId, |op|))
    requires ReadVarint(len + (payload + tail)) == Ok(Parsed(|payload|, |len|))
    ensures DecodeFrame(head + op + len + payload + tail)
         == Ok(Parsed(Frame(head[0], head[1], opId, payload), 2 + |op| + |len| + |payload|))
  {
    hide ReadVarint;
    var data := head + op + len + payload + tail;
    assert data[2..] == op + (len + (payload + tail));
    assert data[2 + |op|..] == len + (payload + tail);
    var pos := 2 + |op| + |len|;
    assert data[pos..pos + |payload|] == payload;
  }

  lemma DecodeEncodedFrame(f: Frame, tail: Bytes)
    requires Deliverable(f)
    ensures DecodeFrame(EncodeFrame(f) + tail) == Ok(Parsed(f, |EncodeFrame(f)|))
  {
    hide EncodeVarint, ReadVarint, DecodeFrame;
    var op, len := EncodeVarint(f.opId), EncodeVarint(|f.payload|);
    ReadEncodedVarint(f.opId, len + (f.payload + tail));
    ReadEncodedVarint(|f.payload|, f.payload + tail);
    DecodeParts([f.ftype, f.flags], op, len, f.payload, tail, f.opId);
  }

  lemma SliceAgrees(a: Bytes, b: Bytes, n: nat, from: nat)
    requires AgreeOn(a, b, n) && from <= n
    ensures AgreeOn(a[from..], b[from..], n - from)
  {
    assert a[from..][..n - from] == a[..n][from..];
    assert b[from..][..n - from] == b[..n][from..];
  }

  lemma NarrowAgreement(a: Bytes, b: Bytes, n: nat, m: nat)
    requires AgreeOn(a, b, n) && m <= n
    ensures AgreeOn(a, b, m)
  {
    assert a[..m] == a[..n][..m];
    assert b[..m] == b[..n][..m];
  }

  /** A varint inside a shared region of two inputs reads the same from both. */
  lemma ReadVarintInside(a: Bytes, b: Bytes, n: nat, from: nat)
    requires AgreeOn(a, b, n) && from <= n
    requires ReadVarint(a[from..]).Ok? && from + ReadVarint(a[from..]).value.size <= n
    ensures ReadVarint(b[from..]) == ReadVarint(a[from..])
  {
    SliceAgrees(a, b, n, from);
    NarrowAgreement(a[from..], b[from..], n - from, ReadVarint(a[from..]).value.size);
    ReadVarintStable(a[from..], b[from..]);
  }

  /** A successful decode depends only on the bytes it consumed. */
  lemma DecodeFrameStable(a: Bytes, b: Bytes)
    requires DecodeFrame(a).Ok? && AgreeOn(a, b, DecodeFrame(a).value.size)
    ensures DecodeFrame(b) == DecodeFrame(a)
  {
    var n := DecodeFrame(a).value.size;
    assert a[0] == a[..n][0] == b[0] && a[1] == a[..n][1] == b[1];
    ReadVarintInside(a, b, n, 2);
    var op := ReadVarint(a[2..]).value;
    ReadVarintInside(a, b, n, 2 + op.size);
    var pos := 2 + op.size + ReadVarint(a[2 + op.size..]).value.size;
    assert a[pos..n] == a[..n][pos..] == b[..n][pos..] == b[pos..n];
  }

  /** Only ErrShortBuffer can turn into another outcome as more bytes arrive. */
  lemma DecodeFrameSettles(data: Bytes, more: Bytes)
    requires DecodeFrame(data) != Err(ShortBuffer)
    ensures DecodeFrame(data + more) == DecodeFrame(data)
  {
    var all := data + more;
    assert AgreeOn(data, all, |data|);
    if DecodeFrame(data).Ok? {
      NarrowAgreement(data, all, |data|, DecodeFrame(data).value.size);
      DecodeFrameStable(data, all);
    } else {
      ReadVarintInside(data, all, |data|, 2);
      ReadVarintInside(data, all, |data|, 2 + ReadVarint(data[2..]).value.size);
    }
  }

  /** Every strict prefix of an encoded frame is reported as a short buffer. */
  lemma StrictPrefixIsShort(f: Frame, k: nat)
    requires Deliverable(f) && k < |EncodeFrame(f)|
    ensures DecodeFrame(EncodeFrame(f)[..k]) == Err(ShortBuffer)
  {
    hide EncodeFrame, DecodeFrame;
    var whole := EncodeFrame(f);
    DecodeEncodedFrame(f, []);
    assert whole + [] == whole;
    assert whole[..k] + whole[k..] == whole;
    if DecodeFrame(whole[..k]) != Err(ShortBuffer) {
      DecodeFrameSettles(whole[..k], whole[k..]);
      assert false;
    }
  }

  /** Re-encoding a decoded frame is no longer than its source and decodes to the same frame. */
  lemma ReencodeFrame(data: Bytes, tail: Bytes)
    requires DecodeFrame(data).Ok?
    ensures var p := DecodeFrame(data).value;
            && Deliverable(p.value)
            && |EncodeFrame(p.value)| <= p.size
            && DecodeFrame(EncodeFrame(p.value) + tail) == Ok(Parsed(p.value, |EncodeFrame(p.value)|))
  {
    var p := DecodeFrame(data).value;
    EncodingIsShortest(data[2..]);
    EncodingIsShortest(data[2 + ReadVarint(data[2..]).value.size..]);
    DecodeEncodedFrame(p.value, tail);
  }

  /** A decoded frame re-encodes to the very bytes consumed exactly when both varints were minimal. */
  lemma ReencodeFrameExactly(data: Bytes)
    requires DecodeFrame(data).Ok?
    ensures var p := DecodeFrame(data).value;
            && Deliverable(p.value)
            && (EncodeFrame(p.value) == data[..p.size] <==> |EncodeFrame(p.value)| == p.size)
  {
    hide EncodeVarint, ReadVarint;
    ReencodeFrame(data, []);
    var p := DecodeFrame(data).value;
    var op := ReadVarint(data[2..]).value;
    var len := ReadVarint(data[2 + op.size..]).value;
    EncodingIsShortest(data[2..]);
    EncodingIsShortest(data[2 + op.size..]);
    ReencodeExactly(data[2..]);
    ReencodeExactly(data[2 + op.size..]);
    SamePieces([p.value.ftype, p.value.flags], EncodeVarint(p.value.opId), EncodeVarint(|p.value.payload|),
               p.value.payload, data, op.size, len.size);
  }

  /** A concatenation equals a prefix of `data` exactly when its two middle pieces do. */
  lemma SamePieces(head: Bytes, a: Bytes, b: Bytes, payload: Bytes, data: Bytes, n: nat, m: nat)
    requires 2 + n + m + |payload| <= |data| && data[..2] == head
    requires data[2 + n + m..2 + n + m + |payload|] == payload
    requires |a| <= n && |b| <= m
    requires |a| == n <==> a == data[2..][..n]
    requires |b| == m <==> b == data[2 + n..][..m]
    ensures head + a + b + payload == data[..2 + n + m + |payload|] <==> |head + a + b + payload| == 2 + n + m + |payload|
  {
    var end := 2 + n + m + |payload|;
    assert data[..end] == data[..2] + data[2..][..n] + data[2 + n..][..m] + data[2 + n + m..end];
  }

  lemma {:induction false} EncodeFramesConcat(fs: seq<Frame>, gs: seq<Frame>)
    requires AllDeliverable(fs)
    requires AllDeliverable(gs)
    ensures EncodeFrames(fs + gs) == EncodeFrames(fs) + EncodeFrames(gs)
  {
    hide EncodeFrame;
    if gs == [] {
      assert fs + gs == fs;
    } else {
      var init, last := gs[..|gs| - 1], gs[|gs| - 1];
      EncodeFramesConcat(fs, init);
      assert (fs + gs)[..|fs + gs| - 1] == fs + init;
    }
  }

  lemma EncodeFramesFromFront(fs: seq<Frame>)
    requires fs != [] && AllDeliverable(fs)
    ensures AllDeliverable(fs[1..]) && Deliverable(fs[0])
    ensures EncodeFrames(fs) == EncodeFrame(fs[0]) + EncodeFrames(fs[1..])
  {
    hide EncodeFrame;
    var first := fs[..1];
    assert fs == first + fs[1..];
    EncodeFramesConcat(first, fs[1..]);
    assert first[..0] == [];
  }

  /** The concatenated encodings of any deliverable frame list decode to that list. */
  lemma {:induction false} DecodeEncodedFrames(fs: seq<Frame>)
    requires AllDeliverable(fs)
    ensures DecodeFrames(EncodeFrames(fs)) == Ok(fs)
  {
    hide EncodeFrame, DecodeFrame;
    if fs != [] {
      var rest := EncodeFrames(fs[1..]);
      EncodeFramesFromFront(fs);
      DecodeEncodedFrame(fs[0], rest);
      assert EncodeFrames(fs)[|EncodeFrame(fs[0])|..] == rest;
      DecodeEncodedFrames(fs[1..]);
      assert [fs[0]] + fs[1..] == fs;
    }
  }
}
