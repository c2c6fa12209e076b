/** Reading frames from a byte stream that arrives in chunks of any size. */
module Streaming {
  import opened Base
  import opened Varint
  import opened Frames

  /** The error of a read that wanted more bytes than the `left` remaining ones. */
  function EndError(left: Bytes): Error {
    if left == [] then Eof else UnexpectedEof
  }

  /** A varint is read in two steps, the first byte alone, so a cut after it reports a clean end. */
  function VarintEndError(left: Bytes): Error {
    if |left| <= 1 then Eof else UnexpectedEof
  }

  /** The end-of-input error reported for a stream that holds less than one frame. */
  function FrameEndError(data: Bytes): Error {
    if |data| < 2 then EndError(data)
    else match ReadVarint(data[2..])
      case Err(_) => VarintEndError(data[2..])
      case Ok(op) =>
        match ReadVarint(data[2 + op.size..])
        case Err(_) => VarintEndError(data[2 + op.size..])
        case Ok(len) => EndError(data[2 + op.size + len.size..])
  }

  /** The bytes in front of a frame's payload. */
  function HeaderSize(data: Bytes): (n: nat)
    requires |data| >= 2
    requires ReadVarint(data[2..]).Ok?
    requires ReadVarint(data[2 + ReadVarint(data[2..]).value.size..]).Ok?
    ensures n <= |data|
  {
    var op := ReadVarint(data[2..]).value;
    2 + op.size + ReadVarint(data[2 + op.size..]).value.size
  }

  /** A finite io.Reader: each call hands out at most one chunk; a chunk may be empty. */
  class Reader {
    var chunks: seq<Bytes>

    ghost function Remaining(): Bytes
      reads this
    {
      Flatten(chunks)
    }

    constructor (chunks: seq<Bytes>)
      ensures this.chunks == chunks
    {
      this.chunks := chunks;
    }

    method Read(max: nat) returns (got: Bytes, end: bool)
      requires max > 0
      modifies this
      ensures end <==> old(chunks) == []
      ensures |got| <= max && got + Remaining() == old(Remaining())
      ensures !end ==> |chunks| + |Remaining()| < |old(chunks)| + |old(Remaining())|
      ensures end ==> chunks == []
    {
      if chunks == [] {
        return [], true;
      }
      var first := chunks[0];
      if |first| <= max {
        got, end, chunks := first, false, chunks[1..];
      } else {
        got, end := first[..max], false;
        chunks := [first[max..]] + chunks[1..];
        assert first == got + first[max..];
        assert Flatten(chunks) == first[max..] + Flatten(old(chunks)[1..]);
      }
    }

    /** io.ReadFull: exactly `n` bytes, or an error and an exhausted stream. */
    method ReadFull(n: nat) returns (r: Result<Bytes>)
      modifies this
      ensures var data := old(Remaining());
              if n <= |data| then r == Ok(data[..n]) && Remaining() == data[n..]
              else r == Err(EndError(data)) && Remaining() == []
    {
      var buf: Bytes, end := [], false;
      while |buf| < n && !end
        invariant |buf| <= n && buf + Remaining() == old(Remaining())
        invariant end ==> chunks == []
        decreases !end, |chunks| + |Remaining()|
      {
        var got;
        ghost var left := Remaining();
        got, end := Read(n - |buf|);
        assert buf + got + Remaining() == buf + left;
        buf := buf + got;
      }
      if |buf| == n {
        return Ok(buf);
      }
      assert buf + Remaining() == buf;
      return Err(if buf == [] then Eof else UnexpectedEof);
    }

    method ReadVarintFrom() returns (r: Result<nat>)
      modifies this
      ensures var data := old(Remaining());
              match ReadVarint(data)
              case Ok(p) => r == Ok(p.value) && Remaining() == data[p.size..]
              case Err(_) => r == Err(VarintEndError(data)) && Remaining() == []
    {
      ghost var data := Remaining();
      var first := ReadFull(1);
      if first.Err? {
        return Err(first.error);
      }
      var size := AnnouncedSize(first.value[0]);
      if size == 1 {
        assert [data[0] % 0x40] + data[1..1] == [data[0] % 0x40];
        assert FromBigEndian([data[0] % 0x40]) == data[0] % 0x40 by {
          ReadEncodedVarint(data[0] % 0x40, []);
          assert EncodeVarint(data[0] % 0x40) + [] == [data[0] % 0x40];
        }
        return Ok(first.value[0] % 0x40);
      }
      var rest := ReadFull(size - 1);
      if rest.Err? {
        return Err(rest.error);
      }
      var buf := first.value + rest.value;
      assert buf == data[..size];
      ReadVarintStable(data, buf);
      var v := ReadVarint(buf);
      return Ok(v.value.value);
    }

    /**
     * The streaming reader refines the buffer decoder: same success, same frame,
     * same leftover bytes and matching errors, however the stream is chunked.
     */
    method ReadFrame() returns (r: Result<Frame>)
      modifies this
      ensures var data := old(Remaining());
              match DecodeFrame(data)
              case Ok(p) => r == Ok(p.value) && Remaining() == data[p.size..]
              case Err(FrameTooLarge) => r == Err(FrameTooLarge) && Remaining() == data[HeaderSize(data)..]
              case Err(_) => r == Err(FrameEndError(data)) && Remaining() == []
    {
      hide ReadVarint, Flatten;
      ghost var data := Remaining();
      var header := ReadFull(2);
      if header.Err? {
        return Err(header.error);
      }
      var opId := ReadVarintFrom();
      if opId.Err? {
        return Err(opId.error);
      }
      ghost var op := ReadVarint(data[2..]).value;
      assert data[2..][op.size..] == data[2 + op.size..];
      var len := ReadVarintFrom();
      if len.Err? {
        return Err(len.error);
      }
      ghost var pos := HeaderSize(data);
      assert Remaining() == data[pos..];
      if len.value > MAX_FRAME_SIZE {
        return Err(FrameTooLarge);
      }
      var payload: Bytes := [];
      if len.value > 0 {
        var body := ReadFull(len.value);
        if body.Err? {
          return Err(body.error);
        }
        payload := body.value;
        assert Remaining() == data[pos..][len.value..] == data[pos + len.value..];
      }
      assert data[pos..pos + len.value] == payload;
      return Ok(Frame(header.value[0], header.value[1], opId.value, payload));
    }
  }

  /** A frame above the size limit is rejected once its header has arrived, and the reader stops before the payload. */
  lemma OversizeRejected(f: Frame, tail: Bytes)
    requires Encodable(f) && |f.payload| > MAX_FRAME_SIZE
    ensures var data := EncodeFrame(f) + tail;
            && DecodeFrame(data) == Err(FrameTooLarge)
            && ReadVarint(data[2..]).Ok? && ReadVarint(data[2 + ReadVarint(data[2..]).value.size..]).Ok?
            && HeaderSize(data) == |EncodeFrame(f)| - |f.payload|
  {
    hide EncodeVarint, ReadVarint;
    var data := EncodeFrame(f) + tail;
    var op, len := EncodeVarint(f.opId), EncodeVarint(|f.payload|);
    ReadEncodedVarint(f.opId, len + (f.payload + tail));
    ReadEncodedVarint(|f.payload|, f.payload + tail);
    assert data == [f.ftype, f.flags] + op + (len + (f.payload + tail));
    assert data[2..] == op + (len + (f.payload + tail));
    assert data[2 + |op|..] == len + (f.payload + tail);
  }

  /** Where a cut input of header, id, length and payload ends in plain io.EOF, however the varints are written. */
  lemma CutPiecesEnd(head: Bytes, op: Bytes, len: Bytes, payload: Bytes, k: nat)
    requires |head| == 2 && k < |head + op + len + payload|
    requires ReadVarint(op + (len + payload)).Ok? && ReadVarint(op + (len + payload)).value.size == |op|
    requires ReadVarint(len + payload).Ok? && ReadVarint(len + payload).value.size == |len|
    ensures var a, b := |op|, |len|;
            FrameEndError((head + op + len + payload)[..k]) == Eof <==> k in {0, 2, 3, 2 + a, 3 + a, 2 + a + b}
  {
    hide ReadVarint;
    var whole := head + op + len + payload;
    assert whole[2..] == op + (len + payload);
    assert whole[2 + |op|..] == len + payload;
    if k >= 2 {
      CutVarint(whole, 2, k);
      if k >= 2 + |op| {
        CutVarint(whole, 2 + |op|, k);
      }
    }
  }

  /**
   * A stream cut inside a frame does not always end in io.ErrUnexpectedEOF: it
   * ends in plain io.EOF exactly at the boundaries of the reader's own reads.
   */
  lemma CutFrameEnd(f: Frame, k: nat)
    requires Deliverable(f) && k < |EncodeFrame(f)|
    ensures var a := |EncodeVarint(f.opId)|;
            var b := |EncodeVarint(|f.payload|)|;
            FrameEndError(EncodeFrame(f)[..k]) == Eof
            <==> k in {0, 2, 3, 2 + a, 3 + a, 2 + a + b}
  {
    hide ReadVarint, EncodeVarint, FrameEndError;
    var op, len := EncodeVarint(f.opId), EncodeVarint(|f.payload|);
    ReadEncodedVarint(f.opId, len + f.payload);
    ReadEncodedVarint(|f.payload|, f.payload);
    CutPiecesEnd([f.ftype, f.flags], op, len, f.payload, k);
  }

  /** A varint in a cut input reads as before when it is whole and fails when it is not. */
  lemma CutVarint(data: Bytes, from: nat, k: nat)
    requires from <= k <= |data| && ReadVarint(data[from..]).Ok?
    ensures var size := ReadVarint(data[from..]).value.size;
            if from + size <= k then ReadVarint(data[..k][from..]) == ReadVarint(data[from..])
            else ReadVarint(data[..k][from..]).Err?
  {
    var part := data[..k][from..];
    assert part == data[from..][..k - from];
    var size := ReadVarint(data[from..]).value.size;
    if from + size <= k {
      assert data[from..][..size] == part[..size];
      ReadVarintStable(data[from..], part);
    } else if part != [] {
      assert part[0] == data[from..][0];
    }
  }
}
