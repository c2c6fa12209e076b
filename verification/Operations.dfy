/** Operations: one stream and one id each, INVOKE payloads and their dispatch to agents. */
module Operations {
  import opened Base
  import opened Varint
  import opened Frames
  import opened Streaming
  import opened Connection

  /** What an agent handler is given. */
  datatype Invoke = Invoke(agentId: Bytes, operation: Bytes, args: Bytes, opId: nat, peerNodeId: Bytes)

  /** What a caller asks for. */
  datatype Request = Request(agentId: Bytes, operation: Bytes, args: Bytes)

  predicate RequestEncodable(q: Request) {
    |q.agentId| <= MAX_VARINT && |q.operation| <= MAX_VARINT
  }

  function EncodeInvoke(q: Request): Bytes
    requires RequestEncodable(q)
  {
    EncodeString(q.agentId) + EncodeString(q.operation) + q.args
  }

  function DecodeInvoke(payload: Bytes): Result<Request> {
    var agent :- ReadString(payload);
    var name :- ReadString(payload[agent.size..]);
    Ok(Request(agent.value, name.value, payload[agent.size + name.size..]))
  }

  lemma DecodeEncodedInvoke(q: Request)
    requires RequestEncodable(q)
    ensures DecodeInvoke(EncodeInvoke(q)) == Ok(q)
  {
    hide EncodeString, ReadString;
    var agent, name := EncodeString(q.agentId), EncodeString(q.operation);
    var payload := EncodeInvoke(q);
    assert payload == agent + (name + q.args);
    ReadEncodedString(q.agentId, name + q.args);
    assert payload[|agent|..] == name + q.args;
    ReadEncodedString(q.operation, q.args);
    assert payload[|agent| + |name|..] == q.args;
  }

  /** Send overwrites the frame's operation id. */
  function Stamp(f: Frame, opId: nat): Frame {
    f.(opId := opId)
  }

  /** Recv's answer to a frame read from its stream. */
  function Validate(f: Frame, opId: nat): Result<Frame> {
    if f.opId != opId then Err(ProtocolViolation) else Ok(f)
  }

  /**
   * A frame sent on operation `a` and read on operation `b` arrives with its type,
   * flags and payload when the two are one, and is a violation otherwise,
   * whatever id the sender had put into it.
   */
  lemma SentThenReceived(f: Frame, a: nat, b: nat, tail: Bytes)
    requires Deliverable(Stamp(f, a))
    ensures var data := EncodeFrame(Stamp(f, a)) + tail;
            && DecodeFrame(data).Ok? && DecodeFrame(data).value.size == |EncodeFrame(Stamp(f, a))|
            && Validate(DecodeFrame(data).value.value, b) ==
               if a == b then Ok(Frame(f.ftype, f.flags, a, f.payload)) else Err(ProtocolViolation)
  {
    hide EncodeFrame, DecodeFrame;
    DecodeEncodedFrame(Stamp(f, a), tail);
  }

  /** What handleOperation passes to an agent for the first frame of an operation. */
  function Dispatch(agents: set<Bytes>, opId: nat, peerNodeId: Bytes, f: Frame): Option<Invoke> {
    if f.ftype != FRAME_INVOKE then None
    else match DecodeInvoke(f.payload)
      case Err(_) => None
      case Ok(q) => if q.agentId !in agents then None
                    else Some(Invoke(q.agentId, q.operation, q.args, opId, peerNodeId))
  }

  /**
   * NewOperation and AcceptOperation, which differ only in who opened the stream:
   * without a completed handshake there is no operation and no stream is bound.
   */
  method BindOperation(conn: Conn, streamId: nat, stream: Stream) returns (r: Result<Operation>)
    ensures r.Ok? <==> conn.state.Some?
    ensures r.Err? ==> r.error == HandshakeNotCompleted
    ensures r.Ok? ==> r.value.opId == streamId && r.value.stream == stream && r.value.conn == conn
    ensures r.Ok? ==> r.value.PeerNodeId() == conn.state.value.peerNodeId
  {
    if conn.state.None? {
      return Err(HandshakeNotCompleted);
    }
    var op := new Operation(streamId, stream, conn);
    return Ok(op);
  }

  class Operation {
    const opId: nat
    const stream: Stream
    const conn: Conn

    constructor (streamId: nat, stream: Stream, conn: Conn)
      ensures this.opId == streamId && this.stream == stream && this.conn == conn
    {
      this.opId, this.stream, this.conn := streamId, stream, conn;
    }

    function PeerNodeId(): Bytes
      reads conn
    {
      if conn.state.None? then [] else conn.state.value.peerNodeId
    }

    method Send(f: Frame)
      requires Encodable(Stamp(f, opId))
      modifies stream
      ensures stream.written == old(stream.written) + EncodeFrame(Stamp(f, opId))
    {
      stream.SendFrame(Stamp(f, opId));
    }

    method Recv() returns (r: Result<Frame>)
      modifies stream.input
      ensures var data := old(stream.input.Remaining());
              match DecodeFrame(data)
              case Ok(p) => r == Validate(p.value, opId) && stream.input.Remaining() == data[p.size..]
              case Err(FrameTooLarge) => r == Err(FrameTooLarge) && stream.input.Remaining() == data[HeaderSize(data)..]
              case Err(_) => r == Err(FrameEndError(data)) && stream.input.Remaining() == []
    {
      r := stream.RecvFrame();
      if r.Err? {
        return;
      }
      r := Validate(r.value, opId);
    }

    /** The request of an Invoke call, sent as the first frame of a new operation. */
    method SendInvoke(q: Request)
      requires RequestEncodable(q) && opId <= MAX_VARINT && |EncodeInvoke(q)| <= MAX_VARINT
      modifies stream
      ensures stream.written == old(stream.written) + EncodeFrame(Frame(FRAME_INVOKE, 0, opId, EncodeInvoke(q)))
    {
      hide EncodeInvoke, EncodeFrame;
      Send(Frame(FRAME_INVOKE, 0, 0, EncodeInvoke(q)));
    }

    /** handleOperation up to the agent call; None when the operation is closed instead. */
    method HandleOperation(agents: set<Bytes>) returns (inv: Option<Invoke>)
      modifies stream.input
      ensures match DecodeFrame(old(stream.input.Remaining()))
              case Ok(p) => inv == if p.value.opId != opId then None else Dispatch(agents, opId, PeerNodeId(), p.value)
              case Err(_) => inv == None
    {
      hide DecodeFrame, DecodeInvoke;
      var f := Recv();
      if f.Err? || f.value.ftype != FRAME_INVOKE {
        return None;
      }
      var q := DecodeInvoke(f.value.payload);
      if q.Err? || q.value.agentId !in agents {
        return None;
      }
      return Some(Invoke(q.value.agentId, q.value.operation, q.value.args, opId, PeerNodeId()));
    }
  }
}
