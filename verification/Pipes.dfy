/** One direction of an operation's stream: what is written, what has arrived, what the reader makes of it. */
module Pipes {
  import opened Base
  import opened Varint
  import opened Frames
  import opened Streaming
  import opened Operations

  /**
   * The frames sent through Send, all bytes written, how many of them have arrived
   * and been taken by the reader, the frames Recv returned, whether it reported a
   * protocol violation or a frame too large, and whether bytes were written by
   * something other than Send.
   */
  datatype Pipe = Pipe(
    sent: seq<Frame>, wire: Bytes, arrived: nat, taken: nat, got: seq<Frame>,
    violated: bool, rejected: bool, foreign: bool)

  const EMPTY_PIPE := Pipe([], [], 0, 0, [], false, false, false)

  /** The frames in front of the first one a receiver would reject for its size. */
  function Clean(fs: seq<Frame>): (c: seq<Frame>)
    ensures c <= fs && AllDeliverable(c)
    ensures c == fs <==> AllDeliverable(fs)
    ensures |c| < |fs| ==> !Deliverable(fs[|c|])
  {
    if fs == [] then []
    else
      var init := fs[..|fs| - 1];
      var c := Clean(init);
      if c == init && Deliverable(fs[|fs| - 1]) then fs else c
  }

  /** Send writes the frame without looking at its size. */
  function Written(p: Pipe, f: Frame): Pipe
    requires Encodable(f)
  {
    if p.foreign then p.(wire := p.wire + EncodeFrame(f))
    else p.(sent := p.sent + [f], wire := p.wire + EncodeFrame(f))
  }

  /** A peer that does not run this code writes what it likes. */
  function Scribbled(p: Pipe, bytes: Bytes): Pipe {
    p.(wire := p.wire + bytes, foreign := true)
  }

  /**
   * Recv: takes a whole frame from what has arrived, or rejects an announced size
   * and stays behind the header, or blocks and changes nothing.
   */
  function Taken(p: Pipe, id: nat): Pipe
    requires p.taken <= p.arrived <= |p.wire|
  {
    var data := p.wire[p.taken..p.arrived];
    match DecodeFrame(data)
    case Err(FrameTooLarge) => p.(taken := p.taken + HeaderSize(data), rejected := true)
    case Err(_) => p
    case Ok(q) =>
      match Validate(q.value, id)
      case Err(_) => p.(taken := p.taken + q.size, violated := true)
      case Ok(f) => p.(taken := p.taken + q.size, got := p.got + [f])
  }

  /** Every byte taken so far belongs to a frame received, and those are the first ones sent. */
  ghost predicate InStep(p: Pipe) {
    && AllDeliverable(p.got) && p.got <= Clean(p.sent)
    && p.taken == |EncodeFrames(p.got)|
    && !p.violated && !p.rejected
  }

  /** The reader has gone past the sound part; that takes an oversize frame or foreign bytes. */
  ghost predicate OutOfStep(p: Pipe) {
    && Clean(p.sent) <= p.got && p.taken > 0
    && (p.foreign || Clean(p.sent) != p.sent)
  }

  /** The wire starts with the sound frames, then the first oversize one, and holds nothing else that was not sent. */
  ghost predicate WireInv(p: Pipe) {
    var clean := Clean(p.sent);
    && EncodeFrames(clean) <= p.wire
    && (!p.foreign && clean == p.sent ==> p.wire == EncodeFrames(clean))
    && (clean != p.sent ==>
         Encodable(p.sent[|clean|]) && EncodeFrames(clean) + EncodeFrame(p.sent[|clean|]) <= p.wire)
  }

  ghost predicate PipeInv(p: Pipe, id: nat) {
    && p.taken <= p.arrived <= |p.wire|
    && (forall i :: 0 <= i < |p.sent| ==> p.sent[i].opId == id)
    && WireInv(p)
    && (InStep(p) || OutOfStep(p))
  }

  lemma EmptyPipe(id: nat)
    ensures PipeInv(EMPTY_PIPE, id)
  {
  }

  lemma CleanSnoc(fs: seq<Frame>, f: Frame)
    ensures Clean(fs + [f]) == if AllDeliverable(fs) && Deliverable(f) then fs + [f] else Clean(fs)
  {
    hide Deliverable;
    assert (fs + [f])[..|fs|] == fs;
  }

  lemma EncodeFramesSnoc(fs: seq<Frame>, f: Frame)
    requires AllDeliverable(fs) && Deliverable(f)
    ensures AllDeliverable(fs + [f]) && EncodeFrames(fs + [f]) == EncodeFrames(fs) + EncodeFrame(f)
  {
    hide EncodeFrame;
    assert (fs + [f])[..|fs|] == fs;
  }

  lemma PrefixExtends(a: Bytes, wire: Bytes, more: Bytes)
    requires a <= wire
    ensures a <= wire + more
  {
  }

  lemma WireKeeps(p: Pipe, f: Frame)
    requires WireInv(p) && Encodable(f)
    ensures WireInv(Written(p, f))
  {
    var clean := Clean(p.sent);
    CleanSnoc(p.sent, f);
    PrefixExtends(EncodeFrames(clean), p.wire, EncodeFrame(f));
    if clean != p.sent {
      PrefixExtends(EncodeFrames(clean) + EncodeFrame(p.sent[|clean|]), p.wire, EncodeFrame(f));
    } else if !p.foreign && Deliverable(f) {
      EncodeFramesSnoc(p.sent, f);
    }
    hide EncodeFrame, EncodeFrames, Clean, AllDeliverable, Deliverable;
  }

  /** One more frame sent leaves the reader where it stands. */
  lemma StandingKeeps(p: Pipe, f: Frame)
    requires (InStep(p) || OutOfStep(p)) && Encodable(f)
    ensures InStep(Written(p, f)) || OutOfStep(Written(p, f))
  {
    CleanSnoc(p.sent, f);
    hide EncodeFrame, EncodeFrames, Clean, AllDeliverable, Deliverable;
    var q := Written(p, f);
    if InStep(p) {
      assert p.got <= Clean(p.sent) <= Clean(q.sent);
    } else if !p.foreign {
      assert Clean(q.sent) == Clean(p.sent) && |Clean(q.sent)| < |q.sent|;
    }
  }

  lemma WritingKeeps(p: Pipe, id: nat, f: Frame)
    requires PipeInv(p, id) && Encodable(f) && f.opId == id
    ensures PipeInv(Written(p, f), id)
    ensures p.sent <= Written(p, f).sent
  {
    hide EncodeFrame, WireInv, InStep, OutOfStep, Encodable;
    WireKeeps(p, f);
    StandingKeeps(p, f);
  }

  lemma ScribblingKeeps(p: Pipe, id: nat, bytes: Bytes)
    requires PipeInv(p, id)
    ensures PipeInv(Scribbled(p, bytes), id)
  {
    hide EncodeFrame, EncodeFrames, Clean, AllDeliverable, Deliverable;
    assert p.wire <= Scribbled(p, bytes).wire;
  }

  lemma SuffixAfter(wire: Bytes, a: Bytes, b: Bytes)
    requires a + b <= wire
    ensures wire[|a|..] == b + wire[|a + b|..]
  {
    assert wire == a + b + wire[|a + b|..];
  }

  /** In step, the bytes not yet taken are the sound frames not yet received, then what follows those. */
  lemma BytesAhead(p: Pipe, id: nat)
    requires PipeInv(p, id) && InStep(p)
    ensures var rest := Clean(p.sent)[|p.got|..];
            && AllDeliverable(rest)
            && p.wire[p.taken..] == EncodeFrames(rest) + p.wire[|EncodeFrames(Clean(p.sent))|..]
  {
    hide EncodeFrames, EncodeFrame, Clean, OutOfStep;
    var clean := Clean(p.sent);
    var rest := clean[|p.got|..];
    assert clean == p.got + rest;
    EncodeFramesConcat(p.got, rest);
    SuffixAfter(p.wire, EncodeFrames(p.got), EncodeFrames(rest));
  }

  /** Decoding the bytes of a frame list and what follows gives its first frame. */
  lemma DecodeFirst(fs: seq<Frame>, tail: Bytes)
    requires AllDeliverable(fs) && fs != []
    ensures DecodeFrame(EncodeFrames(fs) + tail) == Ok(Parsed(fs[0], |EncodeFrame(fs[0])|))
  {
    hide EncodeFrames, EncodeFrame, DecodeFrame;
    EncodeFramesFromFront(fs);
    DecodeEncodedFrame(fs[0], EncodeFrames(fs[1..]) + tail);
    assert EncodeFrames(fs) + tail == EncodeFrame(fs[0]) + (EncodeFrames(fs[1..]) + tail);
  }

  /** What a read of the arrived bytes would decode. */
  function NextRead(p: Pipe): Result<Parsed<Frame>> {
    if p.taken <= p.arrived <= |p.wire| then DecodeFrame(p.wire[p.taken..p.arrived]) else Err(ShortBuffer)
  }

  /** In step and with a sound frame ahead, a read that does not block finds that frame. */
  lemma ReadingIsNext(p: Pipe, id: nat)
    requires PipeInv(p, id) && InStep(p) && NextRead(p) != Err(ShortBuffer) && |p.got| < |Clean(p.sent)|
    ensures var f := Clean(p.sent)[|p.got|];
            Deliverable(f) && NextRead(p) == Ok(Parsed(f, |EncodeFrame(f)|))
  {
    hide EncodeFrame, DecodeFrame, EncodeFrames, Clean;
    var data := p.wire[p.taken..p.arrived];
    BytesAhead(p, id);
    assert data + p.wire[p.arrived..] == p.wire[p.taken..];
    DecodeFrameSettles(data, p.wire[p.arrived..]);
    DecodeFirst(Clean(p.sent)[|p.got|..], p.wire[|EncodeFrames(Clean(p.sent))|..]);
  }

  /** A read that does not block takes some bytes, all of them arrived. */
  lemma ReadingAdvances(p: Pipe, id: nat)
    requires p.taken <= p.arrived <= |p.wire|
    ensures var q := Taken(p, id);
            && q.(taken := p.taken, got := p.got, violated := p.violated, rejected := p.rejected) == p
            && p.taken <= q.taken <= q.arrived && p.got <= q.got
            && (NextRead(p) != Err(ShortBuffer) ==> p.taken < q.taken)
            && (NextRead(p) == Err(ShortBuffer) ==> q == p)
  {
    hide ReadVarint;
  }

  lemma ReadingKeeps(p: Pipe, id: nat)
    requires PipeInv(p, id)
    ensures PipeInv(Taken(p, id), id)
    ensures p.got <= Taken(p, id).got && Taken(p, id).sent == p.sent && Taken(p, id).foreign == p.foreign
  {
    hide DecodeFrame, Taken, EncodeFrame, EncodeFrames, AllDeliverable, Clean, NextRead;
    ReadingAdvances(p, id);
    var q, clean := Taken(p, id), Clean(p.sent);
    if NextRead(p) != Err(ShortBuffer) {
      if InStep(p) && |p.got| < |clean| {
        ReadingIsNext(p, id);
        StepWithNext(p, id);
      } else {
        GoesOutOfStep(p, id, q);
      }
    }
  }

  /** A read beyond the sound frames that does not block. */
  lemma GoesOutOfStep(p: Pipe, id: nat, q: Pipe)
    requires PipeInv(p, id) && NextRead(p) != Err(ShortBuffer) && (InStep(p) ==> |p.got| == |Clean(p.sent)|)
    requires q.sent == p.sent && q.foreign == p.foreign && p.got <= q.got && q.taken > p.taken
    ensures OutOfStep(q)
  {
    hide NextRead, EncodeFrame, EncodeFrames, AllDeliverable, Clean;
    if InStep(p) {
      assert p.got == Clean(p.sent);
      if !p.foreign && Clean(p.sent) == p.sent {
        NothingAhead(p, id);
        assert false;
      }
    }
  }

  lemma StepWithNext(p: Pipe, id: nat)
    requires PipeInv(p, id) && InStep(p) && |p.got| < |Clean(p.sent)|
    requires var f := Clean(p.sent)[|p.got|];
             Deliverable(f) && NextRead(p) == Ok(Parsed(f, |EncodeFrame(f)|))
    ensures InStep(Taken(p, id))
  {
    hide DecodeFrame, EncodeFrame, EncodeFrames, AllDeliverable, Clean, Deliverable;
    var f := Clean(p.sent)[|p.got|];
    assert f == p.sent[|p.got|];
    EncodeFramesSnoc(p.got, f);
    assert p.got + [f] == Clean(p.sent)[..|p.got| + 1];
  }

  /** When all that was written are sound frames and all were received, no bytes are left. */
  lemma NothingAhead(p: Pipe, id: nat)
    requires PipeInv(p, id) && InStep(p) && !p.foreign && p.got == Clean(p.sent) == p.sent
    ensures NextRead(p) == Err(ShortBuffer)
  {
  }

  /** The first read of a pipe returns the first frame sent, or none at all if that one is too large. */
  lemma FirstRead(p: Pipe, id: nat)
    requires PipeInv(p, id) && p.taken == 0
    ensures p.got == []
    ensures NextRead(p).Ok? && p.sent != [] ==> NextRead(p).value.value == p.sent[0]
  {
    assert p.got == [] by {
      if p.got != [] {
        EncodeFramesFromFront(p.got);
      }
    }
    hide DecodeFrame, EncodeFrame, EncodeFrames, AllDeliverable;
    if NextRead(p).Ok? && p.sent != [] {
      if Clean(p.sent) != [] {
        ReadingIsNext(p, id);
      } else {
        OversizeFirst(p, id);
        assert false;
      }
    }
  }

  lemma OversizeFirst(p: Pipe, id: nat)
    requires PipeInv(p, id) && p.taken == 0 && p.sent != [] && Clean(p.sent) == []
    ensures NextRead(p).Err?
  {
    hide DecodeFrame, EncodeFrame, EncodeFrames, AllDeliverable, Clean, InStep, OutOfStep;
    var f := p.sent[0];
    NoFrames();
    assert [] + EncodeFrame(f) == EncodeFrame(f);
    assert EncodeFrame(f) <= p.wire;
    NeverDecodes(f, p.wire, p.arrived);
    assert p.wire[0..p.arrived] == p.wire[..p.arrived];
  }

  lemma NoFrames()
    ensures EncodeFrames([]) == []
  {
  }

  /** No part of a wire that starts with an oversize frame decodes from its start. */
  lemma NeverDecodes(f: Frame, wire: Bytes, n: nat)
    requires Encodable(f) && !Deliverable(f) && EncodeFrame(f) <= wire && n <= |wire|
    ensures DecodeFrame(wire[..n]).Err?
  {
    hide DecodeFrame, EncodeFrame;
    OversizeRejected(f, wire[|EncodeFrame(f)|..]);
    assert wire == EncodeFrame(f) + wire[|EncodeFrame(f)|..];
    assert wire == wire[..n] + wire[n..];
    if DecodeFrame(wire[..n]).Ok? {
      DecodeFrameSettles(wire[..n], wire[n..]);
      assert false;
    }
  }

  /** Once the next frame sent has arrived whole, a read returns it. */
  lemma ReadsNext(p: Pipe, id: nat)
    requires PipeInv(p, id) && !p.foreign && AllDeliverable(p.sent) && |p.got| < |p.sent|
    requires AllDeliverable(p.sent[..|p.got| + 1]) && |EncodeFrames(p.sent[..|p.got| + 1])| <= p.arrived
    ensures var q := Taken(p, id);
            q.got == p.sent[..|p.got| + 1] && !q.violated && !q.rejected
  {
    hide DecodeFrame, EncodeFrame, EncodeFrames, Clean, AllDeliverable, NextRead;
    var f := p.sent[|p.got|];
    assert InStep(p) && Clean(p.sent) == p.sent;
    ArrivedWhole(p, id);
    ReadingIsNext(p, id);
    ReadingAdvances(p, id);
    StepWithNext(p, id);
    assert p.sent[..|p.got| + 1] == p.got + [f];
    GotNext(p, id, f);
  }

  lemma GotNext(p: Pipe, id: nat, f: Frame)
    requires p.taken <= p.arrived <= |p.wire| && NextRead(p).Ok? && NextRead(p).value.value == f && f.opId == id
    ensures Taken(p, id).got == p.got + [f]
  {
    hide DecodeFrame;
  }

  lemma ArrivedWhole(p: Pipe, id: nat)
    requires PipeInv(p, id) && InStep(p) && |p.got| < |Clean(p.sent)|
    requires AllDeliverable(Clean(p.sent)[..|p.got| + 1]) && |EncodeFrames(Clean(p.sent)[..|p.got| + 1])| <= p.arrived
    ensures NextRead(p) != Err(ShortBuffer)
  {
    hide DecodeFrame, EncodeFrame, EncodeFrames, Clean;
    var clean := Clean(p.sent);
    var f, rest := clean[|p.got|], clean[|p.got|..];
    assert clean[..|p.got| + 1] == p.got + [f];
    EncodeFramesSnoc(p.got, f);
    BytesAhead(p, id);
    EncodeFramesFromFront(rest);
    var data := p.wire[p.taken..p.arrived];
    assert data == p.wire[p.taken..][..p.arrived - p.taken];
    assert EncodeFrame(f) <= data;
    DecodeEncodedFrame(f, data[|EncodeFrame(f)|..]);
    assert data == EncodeFrame(f) + data[|EncodeFrame(f)|..];
  }

  lemma PipeBounds(p: Pipe, id: nat)
    requires PipeInv(p, id)
    ensures p.taken <= p.arrived <= |p.wire|
  {
  }

  lemma GotIsPrefix(p: Pipe, id: nat)
    requires PipeInv(p, id) && !p.foreign && AllDeliverable(p.sent)
    ensures p.got <= p.sent
  {
    hide EncodeFrames, AllDeliverable;
  }

  /** A wire of sound frames holds the next one whole. */
  lemma WireHoldsNext(p: Pipe, id: nat)
    requires PipeInv(p, id) && !p.foreign && AllDeliverable(p.sent) && |p.got| < |p.sent|
    ensures AllDeliverable(p.sent[..|p.got| + 1]) && |EncodeFrames(p.sent[..|p.got| + 1])| <= |p.wire|
  {
    hide EncodeFrames, EncodeFrame, Clean;
    var k := |p.got| + 1;
    assert p.sent == p.sent[..k] + p.sent[k..];
    EncodeFramesConcat(p.sent[..k], p.sent[k..]);
  }

  /** When no whole frame is left among bytes that have all arrived, every sound frame was received. */
  lemma AllReceived(p: Pipe, id: nat)
    requires PipeInv(p, id) && p.arrived == |p.wire| && NextRead(p) == Err(ShortBuffer)
    ensures Clean(p.sent) <= p.got
  {
    hide DecodeFrame, EncodeFrame, EncodeFrames, AllDeliverable;
    if InStep(p) && |p.got| < |Clean(p.sent)| {
      BytesAhead(p, id);
      assert p.wire[p.taken..p.arrived] == p.wire[p.taken..];
      DecodeFirst(Clean(p.sent)[|p.got|..], p.wire[|EncodeFrames(Clean(p.sent))|..]);
      assert false;
    }
  }

  /**
   * An oversize frame whose payload starts with the encoding of another frame makes
   * the second read return that other frame, which nobody sent.
   */
  lemma OversizeDesync(f: Frame, inner: Frame, pad: Bytes, id: nat)
    requires Encodable(f) && |f.payload| > MAX_FRAME_SIZE
    requires Deliverable(inner) && inner.opId == id && f.payload == EncodeFrame(inner) + pad
    ensures var wire := EncodeFrame(f);
            var p := Pipe([f], wire, |wire|, 0, [], false, false, false);
            var q := Taken(p, id);
            && q.taken <= q.arrived <= |q.wire|
            && q.rejected && q.got == [] && Taken(q, id).got == [inner]
  {
    hide DecodeFrame, EncodeFrame;
    var wire := EncodeFrame(f);
    var p := Pipe([f], wire, |wire|, 0, [], false, false, false);
    OversizeRejected(f, []);
    assert wire + [] == wire && wire[0..|wire|] == wire;
    ReadingAdvances(p, id);
    var q := Taken(p, id);
    PayloadIsSuffix(f);
    assert q.wire[q.taken..q.arrived] == EncodeFrame(inner) + pad;
    DecodeEncodedFrame(inner, pad);
  }

  lemma PayloadIsSuffix(f: Frame)
    requires Encodable(f)
    ensures |f.payload| <= |EncodeFrame(f)| && EncodeFrame(f)[|EncodeFrame(f)| - |f.payload|..] == f.payload
  {
    hide EncodeVarint;
  }
}
