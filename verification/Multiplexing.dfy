/**
 * All interleavings of the operations on one connection: both ends open and
 * accept streams, write and read frames, while the network delivers the bytes
 * of each stream in order and in pieces of any size.
 */
module Multiplexing {
  import opened Base
  import opened Varint
  import opened Frames
  import opened Handshake
  import opened Operations
  import opened Pipes
  import opened HelloCodec
  import opened Replay
  import WireFormat

  datatype Side = Client | Server

  function Peer(side: Side): Side {
    if side == Client then Server else Client
  }

  /** Bidirectional stream ids (section 2.1 of RFC 9000): 0, 4, 8... from the client, 1, 5, 9... from the server. */
  function StreamId(side: Side, index: nat): nat {
    4 * index + if side == Client then 0 else 1
  }

  /** The client's first stream is the control stream. */
  function FirstIndex(side: Side): nat {
    if side == Client then 1 else 0
  }

  /** The opener of a stream, read off its id. */
  function Opener(id: nat): Side {
    if id % 4 == 0 then Client else Server
  }

  /** One end: how many streams it has opened and accepted, its operations' ids in order, its peer's id. */
  datatype End = End(own: nat, accepted: nat, ops: seq<nat>, peerNodeId: Bytes)

  /** Pipes are keyed by writing side and stream id; requests and handler calls by stream id. */
  datatype State = State(
    client: End, server: End, pipes: map<(Side, nat), Pipe>, requests: map<nat, Request>, handled: map<nat, Invoke>)
  {
    function At(side: Side): End {
      if side == Client then client else server
    }

    function With(side: Side, e: End): State {
      if side == Client then this.(client := e) else this.(server := e)
    }
  }

  datatype Action =
    | Open(side: Side)
    | Call(side: Side, request: Request)
    | Accept(side: Side)
    | Send(side: Side, id: nat, frame: Frame)
    | Scribble(side: Side, id: nat, bytes: Bytes)
    | Deliver(side: Side, id: nat, count: nat)
    | Recv(side: Side, id: nat)
    | Handle(side: Side, id: nat, agents: set<Bytes>)

  function Start(client: HandshakeState, server: HandshakeState): State {
    State(End(1, 0, [], client.peerNodeId), End(0, 1, [], server.peerNodeId), map[], map[], map[])
  }

  /** NewOperation: the next stream of that side, as long as QUIC has ids left. */
  function OpenStep(s: State, side: Side): State {
    var e := s.At(side);
    var id := StreamId(side, e.own);
    s.(pipes := s.pipes[(Client, id) := EMPTY_PIPE][(Server, id) := EMPTY_PIPE])
     .With(side, e.(own := e.own + 1, ops := e.ops + [id]))
  }

  /** AcceptOperation: the peer's next stream not yet accepted. */
  function AcceptStep(s: State, side: Side): State {
    var e := s.At(side);
    s.With(side, e.(accepted := e.accepted + 1, ops := e.ops + [StreamId(Peer(side), e.accepted)]))
  }

  predicate CanOpen(s: State, side: Side) {
    StreamId(side, s.At(side).own) <= MAX_VARINT
  }

  /** Above these sizes the encoders panic; the receiver's limit is not checked. */
  predicate CanCall(s: State, side: Side, q: Request) {
    CanOpen(s, side) && RequestEncodable(q) && |EncodeInvoke(q)| <= MAX_VARINT
  }

  predicate Readable(s: State, side: Side, id: nat) {
    && id in s.At(side).ops && (Peer(side), id) in s.pipes
    && var p := s.pipes[(Peer(side), id)]; p.taken <= p.arrived <= |p.wire|
  }

  /** One step; an action that is not possible leaves the state as it is. */
  function Next(s: State, a: Action): State {
    match a
    case Open(side) => if CanOpen(s, side) then OpenStep(s, side) else s
    case Call(side, q) =>
      if !CanCall(s, side, q) then s
      else
        var id := StreamId(side, s.At(side).own);
        var t := OpenStep(s, side);
        var f := Frame(FRAME_INVOKE, 0, id, EncodeInvoke(q));
        t.(pipes := t.pipes[(side, id) := Written(EMPTY_PIPE, f)], requests := t.requests[id := q])
    case Accept(side) => if s.At(side).accepted < s.At(Peer(side)).own then AcceptStep(s, side) else s
    case Send(side, id, f) =>
      if id !in s.At(side).ops || (side, id) !in s.pipes || id > MAX_VARINT || |f.payload| > MAX_VARINT then s
      else s.(pipes := s.pipes[(side, id) := Written(s.pipes[(side, id)], Stamp(f, id))])
    case Scribble(side, id, bytes) =>
      // An end that does not run this code writes any bytes to a stream.
      if id !in s.At(side).ops || (side, id) !in s.pipes then s
      else s.(pipes := s.pipes[(side, id) := Scribbled(s.pipes[(side, id)], bytes)])
    case Deliver(side, id, count) =>
      if (side, id) !in s.pipes || s.pipes[(side, id)].arrived + count > |s.pipes[(side, id)].wire| then s
      else
        var p := s.pipes[(side, id)];
        s.(pipes := s.pipes[(side, id) := p.(arrived := p.arrived + count)])
    case Recv(side, id) =>
      if !Readable(s, side, id) then s
      else s.(pipes := s.pipes[(Peer(side), id) := Taken(s.pipes[(Peer(side), id)], id)])
    case Handle(side, id, agents) =>
      // A node reads the first frame of an accepted operation and dispatches it.
      if !Readable(s, side, id) || Opener(id) == side || s.pipes[(Peer(side), id)].taken != 0 then s
      else
        var p := Taken(s.pipes[(Peer(side), id)], id);
        var t := s.(pipes := s.pipes[(Peer(side), id) := p]);
        if p.got == [] then t
        else match Dispatch(agents, id, s.At(side).peerNodeId, p.got[0])
          case None => t
          case Some(inv) => t.(handled := t.handled[id := inv])
  }

  function Run(s: State, actions: seq<Action>): State {
    if actions == [] then s else Next(Run(s, actions[..|actions| - 1]), actions[|actions| - 1])
  }

  // What every step keeps

  /** The streams a side has numbered up to, but not including, `limit`; not the control stream. */
  predicate Numbered(id: nat, side: Side, limit: nat) {
    id % 4 == StreamId(side, 0) && FirstIndex(side) <= id / 4 < limit
  }

  predicate Exists(s: State, id: nat) {
    Numbered(id, Client, s.client.own) || Numbered(id, Server, s.server.own)
  }

  /** An end's operations are exactly the streams it opened and accepted, each once. */
  ghost predicate EndInv(e: End, side: Side) {
    && FirstIndex(side) <= e.own && FirstIndex(Peer(side)) <= e.accepted
    && (forall id: nat :: id in e.ops <==> Numbered(id, side, e.own) || Numbered(id, Peer(side), e.accepted))
    && (forall i, j :: 0 <= i < j < |e.ops| ==> e.ops[i] != e.ops[j])
  }

  ghost predicate PipesInv(s: State) {
    && (forall side, id: nat :: (side, id) in s.pipes <==> Exists(s, id))
    && (forall side, id: nat :: (side, id) in s.pipes ==> PipeInv(s.pipes[(side, id)], id))
  }

  ghost predicate Inv(s: State) {
    && EndInv(s.client, Client) && EndInv(s.server, Server)
    && s.client.accepted <= s.server.own && s.server.accepted <= s.client.own
    && PipesInv(s)
  }

  /** A request is the first frame its operation sent. */
  ghost predicate RequestInv(s: State, id: nat) {
    id in s.requests ==>
      && (Opener(id), id) in s.pipes && RequestEncodable(s.requests[id])
      && s.pipes[(Opener(id), id)].sent != []
      && s.pipes[(Opener(id), id)].sent[0] == Frame(FRAME_INVOKE, 0, id, EncodeInvoke(s.requests[id]))
  }

  /**
   * Whatever a handler was given carries its own operation's id and the peer id of
   * the handling end; for a request, it is that request.
   */
  ghost predicate HandledInv(s: State, id: nat) {
    id in s.handled ==>
      && (Opener(id), id) in s.pipes
      && s.handled[id].opId == id
      && s.handled[id].peerNodeId == s.At(Peer(Opener(id))).peerNodeId
      && (id in s.requests ==>
           s.handled[id] == InvokeOf(s.requests[id], id, s.At(Peer(Opener(id))).peerNodeId))
  }

  ghost predicate CallInv(s: State) {
    forall id: nat :: RequestInv(s, id) && HandledInv(s, id)
  }

  function InvokeOf(q: Request, id: nat, peerNodeId: Bytes): Invoke {
    Invoke(q.agentId, q.operation, q.args, id, peerNodeId)
  }

  lemma NumberingGrows(id: nat, side: Side, limit: nat)
    requires FirstIndex(side) <= limit
    ensures Numbered(id, side, limit + 1) <==> Numbered(id, side, limit) || id == StreamId(side, limit)
  {
  }

  lemma EndOpens(e: End, side: Side)
    requires EndInv(e, side)
    ensures EndInv(e.(own := e.own + 1, ops := e.ops + [StreamId(side, e.own)]), side)
  {
    forall id: nat
      ensures Numbered(id, side, e.own + 1) <==> Numbered(id, side, e.own) || id == StreamId(side, e.own)
    {
      NumberingGrows(id, side, e.own);
    }
    assert StreamId(side, e.own) !in e.ops;
  }

  lemma EndAccepts(e: End, side: Side)
    requires EndInv(e, side)
    ensures EndInv(e.(accepted := e.accepted + 1, ops := e.ops + [StreamId(Peer(side), e.accepted)]), side)
  {
    forall id: nat
      ensures Numbered(id, Peer(side), e.accepted + 1) <==>
              Numbered(id, Peer(side), e.accepted) || id == StreamId(Peer(side), e.accepted)
    {
      NumberingGrows(id, Peer(side), e.accepted);
    }
    assert StreamId(Peer(side), e.accepted) !in e.ops;
  }

  lemma OpenKeeps(s: State, side: Side)
    requires Inv(s)
    ensures Inv(OpenStep(s, side))
    ensures (Client, StreamId(side, s.At(side).own)) !in s.pipes && (Server, StreamId(side, s.At(side).own)) !in s.pipes
  {
    hide PipeInv, EndInv;
    var e := s.At(side);
    assert FirstIndex(side) <= e.own by {
      EndBounds(s);
    }
    EndOpens(e, side);
    var id := StreamId(side, e.own);
    EmptyPipe(id);
    assert !Exists(s, id);
    var t := OpenStep(s, side);
    forall i: nat
      ensures Exists(t, i) <==> Exists(s, i) || i == id
    {
      NumberingGrows(i, side, e.own);
    }
    forall sd, i: nat
      ensures (sd, i) in t.pipes <==> Exists(t, i)
      ensures (sd, i) in t.pipes ==> PipeInv(t.pipes[(sd, i)], i)
    {
      match sd {
        case Client =>
        case Server =>
      }
    }
  }

  lemma EndBounds(s: State)
    requires Inv(s)
    ensures FirstIndex(Client) <= s.client.own && FirstIndex(Server) <= s.server.own
  {
  }

  lemma AcceptKeeps(s: State, side: Side)
    requires Inv(s) && s.At(side).accepted < s.At(Peer(side)).own
    ensures Inv(AcceptStep(s, side))
  {
    hide PipeInv, EndInv;
    EndAccepts(s.At(side), side);
    assert forall id: nat :: Exists(AcceptStep(s, side), id) <==> Exists(s, id);
  }

  lemma PipeReplaced(s: State, key: (Side, nat), p: Pipe)
    requires Inv(s) && key in s.pipes && PipeInv(p, key.1)
    ensures Inv(s.(pipes := s.pipes[key := p]))
  {
    hide PipeInv, EndInv;
    var t := s.(pipes := s.pipes[key := p]);
    assert forall id: nat :: Exists(t, id) <==> Exists(s, id);
    assert forall side, id: nat :: (side, id) in t.pipes <==> (side, id) in s.pipes;
  }

  lemma OpenKeepsCalls(s: State, side: Side)
    requires Inv(s) && CallInv(s)
    ensures CallInv(OpenStep(s, side))
    ensures StreamId(side, s.At(side).own) !in s.requests && StreamId(side, s.At(side).own) !in s.handled
  {
    hide Inv, EncodeInvoke;
    OpenKeeps(s, side);
    var t, new' := OpenStep(s, side), StreamId(side, s.At(side).own);
    assert RequestInv(s, new') && HandledInv(s, new');
    forall id: nat
      ensures RequestInv(t, id) && HandledInv(t, id)
    {
      assert RequestInv(s, id) && HandledInv(s, id);
    }
  }

  /** A pipe that only gained frames leaves the calls as they were. */
  lemma CallsKept(s: State, key: (Side, nat), p: Pipe)
    requires CallInv(s) && key in s.pipes && s.pipes[key].sent <= p.sent
    ensures CallInv(s.(pipes := s.pipes[key := p]))
  {
    hide EncodeInvoke;
    var t := s.(pipes := s.pipes[key := p]);
    forall id: nat
      ensures RequestInv(t, id) && HandledInv(t, id)
    {
      assert RequestInv(s, id) && HandledInv(s, id);
    }
  }

  /** The frame of a request dispatches to exactly that request. */
  lemma DispatchOfRequest(agents: set<Bytes>, q: Request, id: nat, peerNodeId: Bytes)
    requires RequestEncodable(q)
    ensures var inv := Dispatch(agents, id, peerNodeId, Frame(FRAME_INVOKE, 0, id, EncodeInvoke(q)));
            inv == if q.agentId in agents then Some(InvokeOf(q, id, peerNodeId)) else None
  {
    hide EncodeInvoke, DecodeInvoke;
    DecodeEncodedInvoke(q);
  }

  /** Whatever frame is dispatched, the agent gets the ids it was dispatched with. */
  lemma DispatchedIds(agents: set<Bytes>, id: nat, peerNodeId: Bytes, f: Frame)
    ensures var inv := Dispatch(agents, id, peerNodeId, f);
            inv.Some? ==> inv.value.opId == id && inv.value.peerNodeId == peerNodeId
  {
    hide DecodeInvoke;
  }

  lemma PipeOf(s: State, side: Side, id: nat)
    requires Inv(s) && (side, id) in s.pipes
    ensures PipeInv(s.pipes[(side, id)], id)
  {
  }

  lemma InvIgnoresCalls(s: State, requests: map<nat, Request>, handled: map<nat, Invoke>)
    requires Inv(s)
    ensures Inv(s.(requests := requests, handled := handled))
  {
    hide PipeInv, EndInv;
    var t := s.(requests := requests, handled := handled);
    assert forall id: nat :: Exists(t, id) <==> Exists(s, id);
  }

  lemma CallKeeps(s: State, side: Side, q: Request)
    requires Inv(s) && CallInv(s) && CanCall(s, side, q)
    ensures Inv(Next(s, Action.Call(side, q))) && CallInv(Next(s, Action.Call(side, q)))
  {
    hide PipeInv, EndInv, PipesInv, EncodeInvoke, EncodeFrame;
    OpenKeeps(s, side);
    OpenKeepsCalls(s, side);
    var t, id := OpenStep(s, side), StreamId(side, s.At(side).own);
    var p := Written(EMPTY_PIPE, Frame(FRAME_INVOKE, 0, id, EncodeInvoke(q)));
    EmptyPipe(id);
    WritingKeeps(EMPTY_PIPE, id, Frame(FRAME_INVOKE, 0, id, EncodeInvoke(q)));
    PipeReplaced(t, (side, id), p);
    CallsKept(t, (side, id), p);
    var u := t.(pipes := t.pipes[(side, id) := p]);
    var v := u.(requests := u.requests[id := q]);
    InvIgnoresCalls(u, v.requests, v.handled);
    forall i: nat
      ensures RequestInv(v, i) && HandledInv(v, i)
    {
      assert RequestInv(u, i) && HandledInv(u, i);
    }
  }

  lemma HandleKeeps(s: State, side: Side, id: nat, agents: set<Bytes>)
    requires Inv(s) && CallInv(s)
    ensures Inv(Next(s, Handle(side, id, agents))) && CallInv(Next(s, Handle(side, id, agents)))
  {
    hide EndInv, PipesInv, PipeInv, EncodeInvoke, Taken, Dispatch;
    var key := (Peer(side), id);
    if Readable(s, side, id) && Opener(id) != side && s.pipes[key].taken == 0 {
      PipeOf(s, Peer(side), id);
      ReadingKeeps(s.pipes[key], id);
      var p := Taken(s.pipes[key], id);
      PipeReplaced(s, key, p);
      CallsKept(s, key, p);
      var t := s.(pipes := s.pipes[key := p]);
      if p.got != [] {
        FirstGot(s.pipes[key], id);
        var peerNodeId := s.At(side).peerNodeId;
        var inv := Dispatch(agents, id, peerNodeId, p.got[0]);
        DispatchedIds(agents, id, peerNodeId, p.got[0]);
        if inv.Some? {
          var u := t.(handled := t.handled[id := inv.value]);
          InvIgnoresCalls(t, u.requests, u.handled);
          forall i: nat
            ensures RequestInv(u, i) && HandledInv(u, i)
          {
            assert RequestInv(t, i) && HandledInv(t, i);
            if i == id && id in s.requests {
              DispatchOfRequest(agents, s.requests[id], id, peerNodeId);
            }
          }
        }
      }
    }
  }

  /** What the first read of a pipe adds is the first frame sent on it. */
  lemma FirstGot(p: Pipe, id: nat)
    requires PipeInv(p, id) && p.taken == 0 && Taken(p, id).got != []
    ensures p.sent != [] ==> Taken(p, id).got[0] == p.sent[0]
  {
    hide DecodeFrame, InStep, OutOfStep, WireInv;
    FirstRead(p, id);
  }

  lemma DeliveryKeeps(p: Pipe, id: nat, count: nat)
    requires PipeInv(p, id) && p.arrived + count <= |p.wire|
    ensures PipeInv(p.(arrived := p.arrived + count), id)
  {
    hide EncodeFrames, EncodeFrame, Clean;
  }

  lemma TransferKeeps(s: State, a: Action)
    requires Inv(s) && CallInv(s) && (a.Send? || a.Scribble? || a.Deliver? || a.Recv?)
    ensures Inv(Next(s, a)) && CallInv(Next(s, a))
  {
    hide EndInv, PipesInv, PipeInv, Taken, Written, CallInv;
    match a {
      case Send(side, id, f) =>
        if (side, id) in s.pipes && id <= MAX_VARINT && |f.payload| <= MAX_VARINT {
          PipeOf(s, side, id);
          WritingKeeps(s.pipes[(side, id)], id, Stamp(f, id));
          PipeReplaced(s, (side, id), Written(s.pipes[(side, id)], Stamp(f, id)));
          CallsKept(s, (side, id), Written(s.pipes[(side, id)], Stamp(f, id)));
        }
      case Scribble(side, id, bytes) =>
        if (side, id) in s.pipes {
          PipeOf(s, side, id);
          ScribblingKeeps(s.pipes[(side, id)], id, bytes);
          PipeReplaced(s, (side, id), Scribbled(s.pipes[(side, id)], bytes));
          CallsKept(s, (side, id), Scribbled(s.pipes[(side, id)], bytes));
        }
      case Deliver(side, id, count) =>
        if (side, id) in s.pipes {
          PipeOf(s, side, id);
          var p := s.pipes[(side, id)];
          if p.arrived + count <= |p.wire| {
            DeliveryKeeps(p, id, count);
            PipeReplaced(s, (side, id), p.(arrived := p.arrived + count));
            CallsKept(s, (side, id), p.(arrived := p.arrived + count));
          }
        }
      case Recv(side, id) =>
        if Readable(s, side, id) {
          PipeOf(s, Peer(side), id);
          ReadingKeeps(s.pipes[(Peer(side), id)], id);
          PipeReplaced(s, (Peer(side), id), Taken(s.pipes[(Peer(side), id)], id));
          CallsKept(s, (Peer(side), id), Taken(s.pipes[(Peer(side), id)], id));
        }
    }
  }

  /** Every step keeps the numbering of streams, the order of frames on each and the calls made. */
  lemma NextKeeps(s: State, a: Action)
    requires Inv(s) && CallInv(s)
    ensures Inv(Next(s, a)) && CallInv(Next(s, a))
    ensures Next(s, a).client.peerNodeId == s.client.peerNodeId
    ensures Next(s, a).server.peerNodeId == s.server.peerNodeId
  {
    assert Next(s, a).client.peerNodeId == s.client.peerNodeId && Next(s, a).server.peerNodeId == s.server.peerNodeId by {
      hide Inv, CallInv, EncodeInvoke, Taken, Dispatch;
    }
    hide Inv, EncodeInvoke, Taken, Dispatch, OpenStep, AcceptStep;
    match a {
      case Open(side) =>
        OpenKeeps(s, side);
        OpenKeepsCalls(s, side);
      case Call(side, q) =>
        if CanCall(s, side, q) {
          CallKeeps(s, side, q);
        }
      case Accept(side) =>
        if s.At(side).accepted < s.At(Peer(side)).own {
          AcceptKeeps(s, side);
          AcceptKeepsCalls(s, side);
        }
      case Send(_, _, _) => TransferKeeps(s, a);
      case Scribble(_, _, _) => TransferKeeps(s, a);
      case Deliver(_, _, _) => TransferKeeps(s, a);
      case Recv(_, _) => TransferKeeps(s, a);
      case Handle(side, id, agents) => HandleKeeps(s, side, id, agents);
    }
  }

  lemma AcceptKeepsCalls(s: State, side: Side)
    requires CallInv(s)
    ensures CallInv(AcceptStep(s, side))
  {
    hide EncodeInvoke;
    forall id: nat
      ensures RequestInv(AcceptStep(s, side), id) && HandledInv(AcceptStep(s, side), id)
    {
      assert RequestInv(s, id) && HandledInv(s, id);
    }
  }

  lemma {:induction false} RunKeeps(a: HandshakeState, b: HandshakeState, actions: seq<Action>)
    ensures var s := Run(Start(a, b), actions);
            Inv(s) && CallInv(s) && s.client.peerNodeId == a.peerNodeId && s.server.peerNodeId == b.peerNodeId
  {
    if actions != [] {
      RunKeeps(a, b, actions[..|actions| - 1]);
      hide Inv, CallInv, Next;
      NextKeeps(Run(Start(a, b), actions[..|actions| - 1]), actions[|actions| - 1]);
    }
  }

  // What every run guarantees

  /** Operation ids at either end are distinct and never zero, the control stream's id. */
  lemma OperationIdsDistinct(a: HandshakeState, b: HandshakeState, actions: seq<Action>, side: Side)
    ensures var ops := Run(Start(a, b), actions).At(side).ops;
            && (forall i :: 0 <= i < |ops| ==> ops[i] != 0)
            && (forall i, j :: 0 <= i < j < |ops| ==> ops[i] != ops[j])
  {
    RunKeeps(a, b, actions);
    hide Run;
    var e := Run(Start(a, b), actions).At(side);
    assert EndInv(e, side);
    forall i | 0 <= i < |e.ops|
      ensures e.ops[i] != 0
    {
      assert e.ops[i] in e.ops;
    }
  }

  /**
   * Isolation over every interleaving, even when an end writes oversize frames or
   * foreign bytes: what an operation's reader receives and the frames sent to
   * it before the first oversize one are the same as far as both go. If all
   * that was written are frames a receiver accepts, the frames received are a
   * prefix of those sent, all carry the operation's id, and no read fails.
   */
  lemma OperationIsolation(a: HandshakeState, b: HandshakeState, actions: seq<Action>, side: Side, id: nat)
    requires id in Run(Start(a, b), actions).At(side).ops
    ensures var s := Run(Start(a, b), actions);
            && (side, id) in s.pipes && (Peer(side), id) in s.pipes
            && var p := s.pipes[(Peer(side), id)];
            && (p.got <= Clean(p.sent) || Clean(p.sent) <= p.got)
            && (!p.foreign && AllDeliverable(p.sent) ==>
                 && p.got <= p.sent && !p.violated && !p.rejected
                 && forall i :: 0 <= i < |p.got| ==> p.got[i].opId == id)
  {
    RunKeeps(a, b, actions);
    hide Run, EncodeFrames, EncodeFrame, AllDeliverable;
    var s := Run(Start(a, b), actions);
    assert EndInv(s.At(side), side);
    assert Exists(s, id);
    PipeOf(s, Peer(side), id);
  }

  /** Once everything has arrived and a read would block, every frame before the first oversize one was received. */
  lemma NothingLost(a: HandshakeState, b: HandshakeState, actions: seq<Action>, side: Side, id: nat)
    requires (side, id) in Run(Start(a, b), actions).pipes
    requires var p := Run(Start(a, b), actions).pipes[(side, id)];
             p.arrived == |p.wire| && NextRead(p) == Err(ShortBuffer)
    ensures var p := Run(Start(a, b), actions).pipes[(side, id)];
            && Clean(p.sent) <= p.got
            && (!p.foreign && AllDeliverable(p.sent) ==> p.got == p.sent)
  {
    hide Run, Inv, CallInv, EncodeFrame, DecodeFrame, EncodeFrames, AllDeliverable, NextRead;
    RunKeeps(a, b, actions);
    var s := Run(Start(a, b), actions);
    PipeOf(s, side, id);
    AllReceived(s.pipes[(side, id)], id);
  }

  // The size limit is what isolation rests on

  /** A step of nodes that run this code and send payloads of at most `limit` bytes. */
  ghost predicate Within(a: Action, limit: nat) {
    match a
    case Send(_, _, f) => |f.payload| <= limit
    case Call(_, q) => RequestEncodable(q) ==> |EncodeInvoke(q)| <= limit
    case Scribble(_, _, _) => false
    case _ => true
  }

  ghost predicate AllWithin(actions: seq<Action>, limit: nat) {
    forall i :: 0 <= i < |actions| ==> Within(actions[i], limit)
  }

  /** On this pipe, if it exists, the reader received a prefix of what its peer sent. */
  ghost predicate PrefixOn(s: State, side: Side, id: nat) {
    (side, id) in s.pipes ==> s.pipes[(side, id)].got <= s.pipes[(side, id)].sent
  }

  /** In every run within the limit, every reader receives a prefix of what its peer sent. */
  ghost predicate Isolates(limit: nat) {
    forall a: HandshakeState, b: HandshakeState, actions: seq<Action>, side, id: nat ::
      AllWithin(actions, limit) ==> PrefixOn(Run(Start(a, b), actions), side, id)
  }

  /** Only frames a receiver accepts are on the wires. */
  ghost predicate Tame(s: State) {
    forall key :: key in s.pipes ==> !s.pipes[key].foreign && AllDeliverable(s.pipes[key].sent)
  }

  lemma SoundSnoc(fs: seq<Frame>, f: Frame)
    requires AllDeliverable(fs) && Deliverable(f)
    ensures AllDeliverable(fs + [f])
  {
  }

  lemma TamePipe(s: State, key: (Side, nat), p: Pipe)
    requires Tame(s) && !p.foreign && AllDeliverable(p.sent)
    ensures Tame(s.(pipes := s.pipes[key := p]))
  {
    hide AllDeliverable;
  }

  lemma OpenTame(s: State, side: Side)
    requires Tame(s)
    ensures Tame(OpenStep(s, side))
  {
    hide AllDeliverable;
    SoundNothing();
  }

  lemma ReadTame(s: State, key: (Side, nat), id: nat)
    requires Tame(s) && key in s.pipes && s.pipes[key].taken <= s.pipes[key].arrived <= |s.pipes[key].wire|
    ensures Tame(s.(pipes := s.pipes[key := Taken(s.pipes[key], id)]))
  {
    hide AllDeliverable, Taken;
    ReadingAdvances(s.pipes[key], id);
    TamePipe(s, key, Taken(s.pipes[key], id));
  }

  lemma CallTame(s: State, side: Side, q: Request)
    requires Tame(s) && CanCall(s, side, q) && |EncodeInvoke(q)| <= MAX_FRAME_SIZE
    ensures Tame(Next(s, Action.Call(side, q)))
  {
    hide AllDeliverable, EncodeInvoke, EncodeFrame, OpenStep;
    var id := StreamId(side, s.At(side).own);
    var f := Frame(FRAME_INVOKE, 0, id, EncodeInvoke(q));
    OpenTame(s, side);
    SoundNothing();
    SoundSnoc([], f);
    TamePipe(OpenStep(s, side), (side, id), Written(EMPTY_PIPE, f));
  }

  lemma NextTame(s: State, a: Action)
    requires Tame(s) && Within(a, MAX_FRAME_SIZE)
    ensures Tame(Next(s, a))
  {
    hide EncodeInvoke, Dispatch, AllDeliverable, EncodeFrame, DecodeFrame, Taken, OpenStep;
    match a {
      case Open(side) => OpenTame(s, side);
      case Call(side, q) =>
        if CanCall(s, side, q) {
          CallTame(s, side, q);
        }
      case Send(side, id, f) =>
        if (side, id) in s.pipes && id <= MAX_VARINT {
          SoundSnoc(s.pipes[(side, id)].sent, Stamp(f, id));
          TamePipe(s, (side, id), Written(s.pipes[(side, id)], Stamp(f, id)));
        }
      case Accept(_) =>
      case Deliver(_, _, _) =>
      case Recv(side, id) =>
        if Readable(s, side, id) {
          ReadTame(s, (Peer(side), id), id);
        }
      case Handle(side, id, _) =>
        if Readable(s, side, id) {
          ReadTame(s, (Peer(side), id), id);
        }
    }
  }

  lemma SoundNothing()
    ensures AllDeliverable([])
  {
  }

  lemma {:induction false} RunTame(a: HandshakeState, b: HandshakeState, actions: seq<Action>)
    requires AllWithin(actions, MAX_FRAME_SIZE)
    ensures Tame(Run(Start(a, b), actions))
  {
    if actions != [] {
      var init := actions[..|actions| - 1];
      RunTame(a, b, init);
      hide Tame, Next, Within;
      NextTame(Run(Start(a, b), init), actions[|actions| - 1]);
    }
  }

  /** A frame no sender would find in its log. */
  const STOWAWAY := Frame(0, 0, 4, [])

  /** One byte above the limit; the payload begins with the encoding of another frame. */
  function BigFrame(): Frame {
    Frame(0, 0, 4, EncodeFrame(STOWAWAY) + seq(MAX_FRAME_SIZE + 1 - |EncodeFrame(STOWAWAY)|, _ => 0))
  }

  lemma BigFrameFits()
    ensures |EncodeFrame(STOWAWAY)| == 4 && |BigFrame().payload| == MAX_FRAME_SIZE + 1
    ensures Encodable(BigFrame()) && BigFrame().opId == 4
  {
  }

  /** The run: the client sends the big frame, the server reads twice. */
  function StowawayRun(): seq<Action> {
    [Open(Client), Send(Client, 4, BigFrame()), Accept(Server), Deliver(Client, 4, |EncodeFrame(BigFrame())|),
     Recv(Server, 4), Recv(Server, 4)]
  }

  lemma RunSnoc(s: State, actions: seq<Action>, a: Action)
    ensures Run(s, actions + [a]) == Next(Run(s, actions), a)
  {
    assert (actions + [a])[..|actions|] == actions;
  }

  /** After a rejected oversize frame the reader is out of step and returns a frame that was never sent. */
  lemma StowawayReceived(a: HandshakeState, b: HandshakeState)
    ensures (Client, 4) in Run(Start(a, b), StowawayRun()).pipes
    ensures var p := Run(Start(a, b), StowawayRun()).pipes[(Client, 4)];
            p.got == [STOWAWAY] && p.sent == [BigFrame()] && p.rejected
  {
    BigFrameFits();
    OversizeDesync(BigFrame(), STOWAWAY, BigFrame().payload[4..], 4);
    StowawaySteps(a, b, |EncodeFrame(BigFrame())|);
  }

  lemma StowawaySteps(a: HandshakeState, b: HandshakeState, n: nat)
    requires Encodable(BigFrame()) && BigFrame().opId == 4 && n == |EncodeFrame(BigFrame())|
    requires var p := Pipe([BigFrame()], EncodeFrame(BigFrame()), n, 0, [], false, false, false);
             Taken(p, 4).taken <= Taken(p, 4).arrived <= |Taken(p, 4).wire|
    ensures var s := Run(Start(a, b), StowawayRun());
            var p := Pipe([BigFrame()], EncodeFrame(BigFrame()), n, 0, [], false, false, false);
            (Client, 4) in s.pipes && s.pipes[(Client, 4)] == Taken(Taken(p, 4), 4)
  {
    hide BigFrame, EncodeFrame, Taken, Run;
    var s0 := Start(a, b);
    var s1 := Next(s0, Open(Client));
    var s2 := Next(s1, Send(Client, 4, BigFrame()));
    var s3 := Next(s2, Accept(Server));
    var s4 := Next(s3, Deliver(Client, 4, n));
    var s5 := Next(s4, Recv(Server, 4));
    var s6 := Next(s5, Recv(Server, 4));
    var p := Pipe([BigFrame()], EncodeFrame(BigFrame()), n, 0, [], false, false, false);
    assert s1.client.ops == [4] && s1.pipes[(Client, 4)] == EMPTY_PIPE;
    assert Stamp(BigFrame(), 4) == BigFrame();
    assert s2.pipes[(Client, 4)] == p.(arrived := 0);
    assert s3.server.ops == [4];
    assert s4.pipes[(Client, 4)] == p;
    assert s5.pipes[(Client, 4)] == Taken(p, 4);
    assert s6.pipes[(Client, 4)] == Taken(Taken(p, 4), 4);
    StowawayUnrolled(s0);
  }

  lemma StowawayUnrolled(s: State)
    ensures Run(s, StowawayRun()) ==
            Next(Next(Next(Next(Next(Next(s, Open(Client)), Send(Client, 4, BigFrame())), Accept(Server)),
              Deliver(Client, 4, |EncodeFrame(BigFrame())|)), Recv(Server, 4)), Recv(Server, 4))
  {
    hide BigFrame, EncodeFrame, Next;
    var r := StowawayRun();
    RunSnoc(s, r[..5], r[5]);
    RunSnoc(s, r[..4], r[4]);
    RunSnoc(s, r[..3], r[3]);
    RunSnoc(s, r[..2], r[2]);
    RunSnoc(s, r[..1], r[1]);
    RunSnoc(s, r[..0], r[0]);
    assert r[..5] + [r[5]] == r && r[..4] + [r[4]] == r[..5] && r[..3] + [r[3]] == r[..4];
    assert r[..2] + [r[2]] == r[..3] && r[..1] + [r[1]] == r[..2] && r[..0] + [r[0]] == r[..1];
  }

  /** Isolation holds in all runs exactly when senders keep to the limit that only receivers check. */
  lemma IsolationExactly(limit: nat)
    ensures Isolates(limit) <==> limit <= MAX_FRAME_SIZE
  {
    hide Run, PrefixOn, AllWithin;
    if limit <= MAX_FRAME_SIZE {
      forall a: HandshakeState, b: HandshakeState, actions: seq<Action>, side, id: nat | AllWithin(actions, limit)
        ensures PrefixOn(Run(Start(a, b), actions), side, id)
      {
        WithinLarger(actions, limit, MAX_FRAME_SIZE);
        TameIsolates(a, b, actions, side, id);
      }
    } else {
      var idle := HandshakeState([], 0, []);
      StowawayBreaksPrefix(idle, limit);
    }
  }

  lemma WithinLarger(actions: seq<Action>, limit: nat, larger: nat)
    requires AllWithin(actions, limit) && limit <= larger
    ensures AllWithin(actions, larger)
  {
    hide EncodeInvoke;
  }

  lemma StowawayBreaksPrefix(idle: HandshakeState, limit: nat)
    requires limit > MAX_FRAME_SIZE
    ensures AllWithin(StowawayRun(), limit)
    ensures !PrefixOn(Run(Start(idle, idle), StowawayRun()), Client, 4)
  {
    BigFrameFits();
    StowawayReceived(idle, idle);
    hide Run;
    assert STOWAWAY.payload != BigFrame().payload;
    assert [STOWAWAY][0] != [BigFrame()][0];
  }

  lemma TameIsolates(a: HandshakeState, b: HandshakeState, actions: seq<Action>, side: Side, id: nat)
    requires AllWithin(actions, MAX_FRAME_SIZE)
    ensures PrefixOn(Run(Start(a, b), actions), side, id)
  {
    hide Run, Inv, CallInv, EncodeFrame, EncodeFrames, AllDeliverable;
    RunKeeps(a, b, actions);
    RunTame(a, b, actions);
    if (side, id) in Run(Start(a, b), actions).pipes {
      PipeOf(Run(Start(a, b), actions), side, id);
    }
  }

  // What each step does

  /** The stream direction an action writes to, moves bytes on or reads from; one it opens did not exist. */
  function Touched(a: Action): Option<(Side, nat)> {
    match a
    case Send(side, id, _) => Some((side, id))
    case Scribble(side, id, _) => Some((side, id))
    case Deliver(side, id, _) => Some((side, id))
    case Recv(side, id) => Some((Peer(side), id))
    case Handle(side, id, _) => Some((Peer(side), id))
    case _ => None
  }

  /** In every run, a step leaves every other stream, and the other direction of its own, as they were. */
  lemma OthersUntouched(a: HandshakeState, b: HandshakeState, actions: seq<Action>, act: Action, key: (Side, nat))
    requires key in Run(Start(a, b), actions).pipes && Touched(act) != Some(key)
    ensures var s := Run(Start(a, b), actions);
            key in Next(s, act).pipes && Next(s, act).pipes[key] == s.pipes[key]
  {
    hide Run, Inv, CallInv, EncodeInvoke, Dispatch, Taken, Written, EncodeFrame;
    RunKeeps(a, b, actions);
    var s := Run(Start(a, b), actions);
    match act {
      case Open(side) => OpenKeeps(s, side);
      case Call(side, q) => OpenKeeps(s, side);
      case _ =>
    }
  }

  /** A side's next stream has the id 4n, or 4n + 1 for the server, and joins its operations. */
  lemma OpenExactly(s: State, side: Side)
    ensures var t := Next(s, Open(side));
            var id := if side == Client then 4 * s.At(side).own else 4 * s.At(side).own + 1;
            if id > MAX_VARINT then t == s
            else
              && t.At(side).ops == s.At(side).ops + [id] && t.At(side).own == s.At(side).own + 1
              && t.At(Peer(side)) == s.At(Peer(side))
              && (Client, id) in t.pipes && t.pipes[(Client, id)].wire == []
              && (Server, id) in t.pipes && t.pipes[(Server, id)].wire == []
  {
  }

  /** The peer's streams are accepted one by one in the order they were opened. */
  lemma AcceptExactly(s: State, side: Side)
    ensures var t, n := Next(s, Accept(side)), s.At(side).accepted;
            var id := if side == Client then 4 * n + 1 else 4 * n;
            && t.pipes == s.pipes && t.At(Peer(side)) == s.At(Peer(side))
            && t.At(side).ops == s.At(side).ops + (if n < s.At(Peer(side)).own then [id] else [])
            && t.At(side).accepted == n + (if n < s.At(Peer(side)).own then 1 else 0)
  {
  }

  /** A frame sent goes to the end of its stream with the operation's id and everything else as given. */
  lemma SendExactly(s: State, side: Side, id: nat, f: Frame)
    requires id in s.At(side).ops && (side, id) in s.pipes && id <= MAX_VARINT && |f.payload| <= MAX_VARINT
    ensures var p, q := s.pipes[(side, id)], Next(s, Send(side, id, f)).pipes[(side, id)];
            var g := Frame(f.ftype, f.flags, id, f.payload);
            && q.wire == p.wire + EncodeFrame(g) && (!p.foreign ==> q.sent == p.sent + [g])
            && q.got == p.got && q.taken == p.taken && q.arrived == p.arrived
  {
    hide EncodeFrame;
  }

  /** Bytes arrive in order, as many as are there; foreign ones go to the end of the stream. */
  lemma DeliverExactly(s: State, side: Side, id: nat, count: nat, bytes: Bytes)
    requires (side, id) in s.pipes
    ensures var p := s.pipes[(side, id)];
            && Next(s, Deliver(side, id, count)).pipes[(side, id)] ==
               (if p.arrived + count <= |p.wire| then p.(arrived := p.arrived + count) else p)
            && (id in s.At(side).ops ==>
                 Next(s, Scribble(side, id, bytes)).pipes[(side, id)] == p.(wire := p.wire + bytes, foreign := true))
  {
  }

  /** What a read does with the bytes that have arrived. */
  lemma RecvExactly(s: State, side: Side, id: nat)
    requires Readable(s, side, id)
    ensures var p, q := s.pipes[(Peer(side), id)], Next(s, Recv(side, id)).pipes[(Peer(side), id)];
            match NextRead(p)
            case Ok(r) =>
              if r.value.opId == id then q == p.(taken := p.taken + r.size, got := p.got + [r.value])
              else q == p.(taken := p.taken + r.size, violated := true)
            case Err(FrameTooLarge) => q.rejected && p.taken < q.taken <= p.arrived && q.got == p.got
            case Err(_) => q == p
  {
    hide ReadVarint;
  }

  /** In every run of frames a receiver accepts, a read of a frame that has arrived returns the next one sent. */
  lemma RecvReturnsNext(a: HandshakeState, b: HandshakeState, actions: seq<Action>, side: Side, id: nat)
    requires var s := Run(Start(a, b), actions);
             && Readable(s, side, id)
             && var p := s.pipes[(Peer(side), id)];
             && !p.foreign && AllDeliverable(p.sent) && |p.got| < |p.sent|
             && AllDeliverable(p.sent[..|p.got| + 1]) && |EncodeFrames(p.sent[..|p.got| + 1])| <= p.arrived
    ensures var s := Run(Start(a, b), actions);
            var p, q := s.pipes[(Peer(side), id)], Next(s, Recv(side, id)).pipes[(Peer(side), id)];
            q.got == p.sent[..|p.got| + 1] && !q.violated && !q.rejected
  {
    hide Run, Inv, CallInv, EncodeFrame, EncodeFrames, AllDeliverable, Taken, PipeInv;
    RunKeeps(a, b, actions);
    var s := Run(Start(a, b), actions);
    PipeOf(s, Peer(side), id);
    ReadsNext(s.pipes[(Peer(side), id)], id);
  }

  // What can be reached

  /** Streams opened by `side` can all be accepted. */
  lemma {:induction false} AcceptAll(a: HandshakeState, b: HandshakeState, actions: seq<Action>, side: Side)
    returns (more: seq<Action>)
    ensures actions <= more
    ensures var s, t := Run(Start(a, b), actions), Run(Start(a, b), more);
            && t.pipes == s.pipes && t.requests == s.requests && t.At(side) == s.At(side)
            && t.At(Peer(side)).accepted >= t.At(side).own
    decreases var s := Run(Start(a, b), actions); s.At(side).own - s.At(Peer(side)).accepted
  {
    var s := Run(Start(a, b), actions);
    more := actions;
    if s.At(Peer(side)).accepted < s.At(side).own {
      RunSnoc(Start(a, b), actions, Accept(Peer(side)));
      more := AcceptAll(a, b, actions + [Accept(Peer(side))], side);
    }
  }

  /**
   * From every run, an end with ids left can open an operation that both ends come to
   * hold: its id is 4n, or 4n + 1 for the server, and neither end held it before.
   */
  lemma OpenCanBeAccepted(a: HandshakeState, b: HandshakeState, actions: seq<Action>, side: Side)
    returns (id: nat, more: seq<Action>)
    requires 4 * Run(Start(a, b), actions).At(side).own + 1 <= MAX_VARINT
    ensures actions + [Open(side)] <= more
    ensures var s, t := Run(Start(a, b), actions), Run(Start(a, b), more);
            && id == 4 * s.At(side).own + (if side == Client then 0 else 1)
            && id !in s.client.ops && id !in s.server.ops && id in t.client.ops && id in t.server.ops
            && (side, id) in t.pipes && (Peer(side), id) in t.pipes
            && t.pipes[(side, id)].wire == [] && t.pipes[(Peer(side), id)].wire == []
  {
    hide Run, Next, Inv, CallInv, Numbered;
    var s := Run(Start(a, b), actions);
    id := StreamId(side, s.At(side).own);
    RunKeeps(a, b, actions);
    IsNew(s, side);
    RunSnoc(Start(a, b), actions, Open(side));
    OpenExactly(s, side);
    RunKeeps(a, b, actions + [Open(side)]);
    more := AcceptAll(a, b, actions + [Open(side)], side);
    RunKeeps(a, b, more);
    LastNumber(side, s.At(side).own);
    IsAccepted(Run(Start(a, b), more), side, id);
  }

  lemma IsNew(s: State, side: Side)
    requires Inv(s)
    ensures StreamId(side, s.At(side).own) !in s.client.ops && StreamId(side, s.At(side).own) !in s.server.ops
    ensures FirstIndex(side) <= s.At(side).own
  {
    hide PipesInv;
  }

  lemma LastNumber(side: Side, n: nat)
    requires FirstIndex(side) <= n
    ensures Numbered(StreamId(side, n), side, n + 1)
  {
  }

  /** All frames of a stream that has arrived whole can be read. */
  lemma {:induction false} ReadAll(a: HandshakeState, b: HandshakeState, actions: seq<Action>, side: Side, id: nat)
    returns (more: seq<Action>)
    requires var s := Run(Start(a, b), actions);
             && Readable(s, side, id)
             && var p := s.pipes[(Peer(side), id)]; !p.foreign && AllDeliverable(p.sent) && p.arrived == |p.wire|
    ensures actions <= more
    ensures var s, t := Run(Start(a, b), actions), Run(Start(a, b), more);
            (Peer(side), id) in t.pipes && t.pipes[(Peer(side), id)].got == s.pipes[(Peer(side), id)].sent
    decreases var p := Run(Start(a, b), actions).pipes[(Peer(side), id)]; |p.sent| - |p.got|
  {
    hide Run, Next, Inv, CallInv, PipeInv, AllDeliverable, EncodeFrames, Taken;
    var s := Run(Start(a, b), actions);
    var p := s.pipes[(Peer(side), id)];
    RunKeeps(a, b, actions);
    PipeOf(s, Peer(side), id);
    GotIsPrefix(p, id);
    more := actions;
    if |p.got| < |p.sent| {
      WireHoldsNext(p, id);
      RecvReturnsNext(a, b, actions, side, id);
      RecvStep(s, side, id);
      RunSnoc(Start(a, b), actions, Recv(side, id));
      more := ReadAll(a, b, actions + [Recv(side, id)], side, id);
    }
  }

  lemma RecvStep(s: State, side: Side, id: nat)
    requires Readable(s, side, id)
    ensures var t := Next(s, Recv(side, id));
            && Readable(t, side, id)
            && var p, q := s.pipes[(Peer(side), id)], t.pipes[(Peer(side), id)];
               q.sent == p.sent && q.foreign == p.foreign && q.wire == p.wire && q.arrived == p.arrived
  {
    hide Taken;
    ReadingAdvances(s.pipes[(Peer(side), id)], id);
  }

  /**
   * From every run, a deliverable frame sent on an operation both ends hold, on a stream
   * of deliverable frames, has a continuation in which the other end has received
   * all frames sent before it and then this one, with type, flags and payload.
   */
  lemma SentCanArrive(a: HandshakeState, b: HandshakeState, actions: seq<Action>, side: Side, id: nat, f: Frame)
    returns (more: seq<Action>)
    requires var s := Run(Start(a, b), actions);
             && id in s.client.ops && id in s.server.ops && (side, id) in s.pipes && id <= MAX_VARINT
             && !s.pipes[(side, id)].foreign && AllDeliverable(s.pipes[(side, id)].sent) && |f.payload| <= MAX_FRAME_SIZE
    ensures actions + [Send(side, id, f)] <= more
    ensures var s, t := Run(Start(a, b), actions), Run(Start(a, b), more);
            && (side, id) in t.pipes
            && t.pipes[(side, id)].got == s.pipes[(side, id)].sent + [Frame(f.ftype, f.flags, id, f.payload)]
  {
    hide Run, Next, Inv, CallInv, PipeInv, AllDeliverable, EncodeFrame, Deliverable;
    var s, sent := Run(Start(a, b), actions), actions + [Send(side, id, f)];
    SendExactly(s, side, id, f);
    RunSnoc(Start(a, b), actions, Send(side, id, f));
    var t := Run(Start(a, b), sent);
    SendStep(s, side, id, f);
    RunKeeps(a, b, sent);
    PipeOf(t, side, id);
    var q := t.pipes[(side, id)];
    PipeBounds(q, id);
    var deliver := Deliver(side, id, |q.wire| - q.arrived);
    RunSnoc(Start(a, b), sent, deliver);
    DeliverExactly(t, side, id, |q.wire| - q.arrived, []);
    DeliverStep(t, side, id, |q.wire| - q.arrived);
    more := ReadAll(a, b, sent + [deliver], Peer(side), id);
  }

  lemma SendStep(s: State, side: Side, id: nat, f: Frame)
    requires id in s.At(side).ops && (side, id) in s.pipes && id <= MAX_VARINT && |f.payload| <= MAX_FRAME_SIZE
    requires !s.pipes[(side, id)].foreign && AllDeliverable(s.pipes[(side, id)].sent)
    ensures var t := Next(s, Send(side, id, f));
            && t.client == s.client && t.server == s.server && (side, id) in t.pipes
            && !t.pipes[(side, id)].foreign && AllDeliverable(t.pipes[(side, id)].sent)
  {
    hide AllDeliverable, EncodeFrame;
    SoundSnoc(s.pipes[(side, id)].sent, Stamp(f, id));
  }

  lemma DeliverStep(s: State, side: Side, id: nat, count: nat)
    requires (side, id) in s.pipes && id in s.client.ops && id in s.server.ops
    requires s.pipes[(side, id)].taken <= s.pipes[(side, id)].arrived <= |s.pipes[(side, id)].wire|
    ensures var t := Next(s, Deliver(side, id, count));
            t.client == s.client && t.server == s.server && Readable(t, Peer(side), id)
  {
  }

  // What handlers see

  /** What the first read of an accepted operation calls: the dispatch of its frame, and nothing else changes. */
  lemma HandleExactly(s: State, side: Side, id: nat, agents: set<Bytes>)
    requires Readable(s, side, id) && Opener(id) != side && s.pipes[(Peer(side), id)].taken == 0
    requires s.pipes[(Peer(side), id)].got == []
    ensures var t, r := Next(s, Handle(side, id, agents)), NextRead(s.pipes[(Peer(side), id)]);
            var call := if r.Ok? && r.value.value.opId == id
                        then Dispatch(agents, id, s.At(side).peerNodeId, r.value.value) else None;
            && t.handled == (if call.Some? then s.handled[id := call.value] else s.handled)
            && t.requests == s.requests && t.client == s.client && t.server == s.server
  {
    hide DecodeFrame, Dispatch;
  }

  /**
   * Which first frames call an agent, whoever wrote them: in every run, an operation not
   * read yet calls one exactly when the frame that has arrived carries its id, is
   * of type 0x03 and spells a request to a registered agent.
   */
  lemma CalledExactly(a: HandshakeState, b: HandshakeState, actions: seq<Action>, id: nat, agents: set<Bytes>, inv: Invoke)
    requires var s := Run(Start(a, b), actions);
             && id !in s.handled && Readable(s, Peer(Opener(id)), id) && s.pipes[(Opener(id), id)].taken == 0
    ensures var s := Run(Start(a, b), actions);
            var t, r := Next(s, Handle(Peer(Opener(id)), id, agents)), NextRead(s.pipes[(Opener(id), id)]);
            (id in t.handled && t.handled[id] == inv) <==>
            && r.Ok? && r.value.value.opId == id && r.value.value.ftype == 0x03
            && WireFormat.InvokeText(r.value.value.payload, Request(inv.agentId, inv.operation, inv.args))
            && inv.agentId in agents && inv.opId == id
            && inv.peerNodeId == (if Opener(id) == Client then b else a).peerNodeId
  {
    hide Run, Next, Inv, CallInv, Dispatch, NextRead, PipeInv, WireFormat.InvokeText;
    RunKeeps(a, b, actions);
    var s := Run(Start(a, b), actions);
    var p := s.pipes[(Opener(id), id)];
    PipeOf(s, Opener(id), id);
    FirstRead(p, id);
    HandleExactly(s, Peer(Opener(id)), id, agents);
    if NextRead(p).Ok? {
      WireFormat.DispatchExactly(agents, id, s.At(Peer(Opener(id))).peerNodeId, NextRead(p).value.value, inv);
    }
  }

  /**
   * In every run, a request that can be read whole and names a registered agent is
   * handed to that agent, with its own id and the handling end's peer id.
   */
  lemma HandlerIsCalled(a: HandshakeState, b: HandshakeState, actions: seq<Action>, id: nat, agents: set<Bytes>)
    requires var s := Run(Start(a, b), actions);
             && id in s.requests && s.requests[id].agentId in agents
             && Readable(s, Peer(Opener(id)), id)
             && var p := s.pipes[(Opener(id), id)]; p.taken == 0 && NextRead(p).Ok?
    ensures var s := Run(Start(a, b), actions);
            var t, q := Next(s, Handle(Peer(Opener(id)), id, agents)), s.requests[id];
            && id in t.handled
            && t.handled[id] == Invoke(q.agentId, q.operation, q.args, id, (if Opener(id) == Client then b else a).peerNodeId)
  {
    hide Run, Inv, EncodeInvoke, Dispatch, DecodeFrame, Taken, PipeInv;
    RunKeeps(a, b, actions);
    var s := Run(Start(a, b), actions);
    assert RequestInv(s, id);
    var p := s.pipes[(Opener(id), id)];
    PipeOf(s, Opener(id), id);
    FirstRead(p, id);
    HandleExactly(s, Peer(Opener(id)), id, agents);
    DispatchOfRequest(agents, s.requests[id], id, s.At(Peer(Opener(id))).peerNodeId);
  }

  /** No call is cut off: from every run, a call of deliverable size has a continuation in which its agent gets it. */
  lemma CallCanReach(a: HandshakeState, b: HandshakeState, actions: seq<Action>, side: Side, q: Request, agents: set<Bytes>)
    returns (more: seq<Action>)
    requires CanCall(Run(Start(a, b), actions), side, q) && |EncodeInvoke(q)| <= MAX_FRAME_SIZE && q.agentId in agents
    ensures actions + [Action.Call(side, q)] <= more
    ensures var id, t := StreamId(side, Run(Start(a, b), actions).At(side).own), Run(Start(a, b), more);
            id in t.handled && t.handled[id] == InvokeOf(q, id, (if side == Client then b else a).peerNodeId)
  {
    hide Run, Next, Inv, CallInv, EncodeInvoke, EncodeFrame, DecodeFrame, Dispatch, Taken, Numbered, NextRead;
    var s0, called := Run(Start(a, b), actions), actions + [Action.Call(side, q)];
    var id := StreamId(side, s0.At(side).own);
    var f := Frame(FRAME_INVOKE, 0, id, EncodeInvoke(q));
    RunKeeps(a, b, actions);
    RunSnoc(Start(a, b), actions, Action.Call(side, q));
    CallExactly(s0, side, q);
    var accepted := AcceptAll(a, b, called, side);
    RunKeeps(a, b, accepted);
    IsAccepted(Run(Start(a, b), accepted), side, id);
    var deliver := Deliver(side, id, |EncodeFrame(f)|);
    RunSnoc(Start(a, b), accepted, deliver);
    WholeDelivery(Run(Start(a, b), accepted), side, id, f);
    HandlerIsCalled(a, b, accepted + [deliver], id, agents);
    more := accepted + [deliver] + [Handle(Peer(side), id, agents)];
    RunSnoc(Start(a, b), accepted + [deliver], Handle(Peer(side), id, agents));
  }

  /** Invoke opens the side's next operation and writes the request to it as an INVOKE frame without flags. */
  lemma CallExactly(s: State, side: Side, q: Request)
    requires Inv(s) && CanCall(s, side, q)
    ensures var t, id := Next(s, Action.Call(side, q)), StreamId(side, s.At(side).own);
            && Opener(id) == side && Numbered(id, side, t.At(side).own)
            && (side, id) in t.pipes && id in t.requests && t.requests[id] == q
            && t.At(side).ops == s.At(side).ops + [id]
            && t.pipes[(side, id)] == Written(EMPTY_PIPE, Frame(0x03, 0x00, id, EncodeInvoke(q)))
  {
    hide PipesInv, EncodeInvoke, Written;
  }

  lemma WholeDelivery(s: State, side: Side, id: nat, f: Frame)
    requires Deliverable(f) && (side, id) in s.pipes && s.pipes[(side, id)] == Written(EMPTY_PIPE, f)
    requires id in s.At(Peer(side)).ops
    ensures var t := Next(s, Deliver(side, id, |EncodeFrame(f)|));
            && t.requests == s.requests && Readable(t, Peer(side), id)
            && t.pipes[(side, id)].taken == 0 && NextRead(t.pipes[(side, id)]).Ok?
  {
    hide EncodeFrame, DecodeFrame;
    WholeFrame(Next(s, Deliver(side, id, |EncodeFrame(f)|)).pipes[(side, id)], f);
  }

  lemma IsAccepted(s: State, side: Side, id: nat)
    requires Inv(s) && s.At(Peer(side)).accepted >= s.At(side).own && Numbered(id, side, s.At(side).own)
    ensures id in s.At(Peer(side)).ops
  {
  }

  lemma WholeFrame(p: Pipe, f: Frame)
    requires Deliverable(f) && p.wire == [] + EncodeFrame(f) && p.taken == 0 && p.arrived == |p.wire|
    ensures NextRead(p).Ok?
  {
    hide EncodeFrame, DecodeFrame;
    DecodeEncodedFrame(f, []);
    assert p.wire[0..p.arrived] == EncodeFrame(f) + [];
  }

  /**
   * A handler sees exactly the agent id, operation name and arguments given to
   * Invoke, on the caller's operation, with the peer id the handshake established.
   */
  lemma HandlerSeesRequest(a: HandshakeState, b: HandshakeState, actions: seq<Action>, id: nat)
    requires id in Run(Start(a, b), actions).requests && id in Run(Start(a, b), actions).handled
    ensures var s := Run(Start(a, b), actions);
            s.handled[id] == InvokeOf(s.requests[id], id, if Opener(id) == Client then b.peerNodeId else a.peerNodeId)
  {
    RunKeeps(a, b, actions);
    assert HandledInv(Run(Start(a, b), actions), id);
  }

  /**
   * Every Invoke on a connection, however its frame was sent, carries its own
   * operation's id and the peer id the handling end's handshake established.
   */
  lemma HandlerSeesPeer(a: HandshakeState, b: HandshakeState, actions: seq<Action>, id: nat)
    requires id in Run(Start(a, b), actions).handled
    ensures var inv := Run(Start(a, b), actions).handled[id];
            inv.opId == id && inv.peerNodeId == (if Opener(id) == Client then b else a).peerNodeId
  {
    RunKeeps(a, b, actions);
    assert HandledInv(Run(Start(a, b), actions), id);
  }

  /**
   * From handshake to handler, whatever the peer is and does: if the accepting end
   * completed its handshake on a HELLO of minor 2 or above, the id every handler
   * there sees is a DID whose key's signature over that HELLO checked.
   */
  lemma HandlerSeesVouchedDid(
    rcv: Receiver, cache: Cache, f: Frame, now: int, other: HandshakeState, actions: seq<Action>, id: nat, side: Side)
    requires Judge(rcv, cache, f, now).1.Ok? && SaysSigned(f) && Opener(id) == Peer(side)
    requires var mine := Judge(rcv, cache, f, now).1.value;
             id in Run(if side == Client then Start(mine, other) else Start(other, mine), actions).handled
    ensures var mine := Judge(rcv, cache, f, now).1.value;
            var s := Run(if side == Client then Start(mine, other) else Start(other, mine), actions);
            Vouched(rcv.web, rcv.check, f, s.handled[id].peerNodeId)
  {
    hide Judge, Run, SaysSigned, Vouched;
    IdentityBinding(rcv, cache, f, now);
    var mine := Judge(rcv, cache, f, now).1.value;
    if side == Client {
      HandlerSeesPeer(mine, other, actions, id);
    } else {
      HandlerSeesPeer(other, mine, actions, id);
    }
  }

  /** Between two nodes of this code, every Invoke that reaches an agent carries the DID of the opener's node. */
  lemma HandlerSeesCallerDid(p: Party, q: Party, tailP: Bytes, tailQ: Bytes, actions: seq<Action>, id: nat)
    requires Wellformed(p) && Wellformed(q)
    requires ResultAt(p, q, tailQ).Ok? && ResultAt(q, p, tailP).Ok?
    requires id in Run(Start(ResultAt(p, q, tailQ).value, ResultAt(q, p, tailP).value), actions).handled
    ensures var s := Run(Start(ResultAt(p, q, tailQ).value, ResultAt(q, p, tailP).value), actions);
            s.handled[id].peerNodeId == (if Opener(id) == Client then p else q).sender.signer.did
  {
    hide ResultAt, Run;
    HandshakeAgreement(p, q, tailP, tailQ);
    HandlerSeesPeer(ResultAt(p, q, tailQ).value, ResultAt(q, p, tailP).value, actions, id);
  }
}
