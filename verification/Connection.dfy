/** Streams and the connection object that runs the handshake. */
module Connection {
  import opened Base
  import opened Frames
  import opened Streaming
  import opened Capabilities
  import opened SignatureBlocks
  import opened Replay
  import opened HelloCodec
  import opened Handshake

  /** One QUIC stream: the bytes written so far and the reader of the peer's bytes. */
  class Stream {
    const input: Reader
    var written: Bytes

    constructor (input: Reader)
      ensures this.input == input && written == []
    {
      this.input := input;
      written := [];
    }

    method SendFrame(f: Frame)
      requires Frames.Encodable(f)
      modifies this
      ensures written == old(written) + EncodeFrame(f)
    {
      written := written + EncodeFrame(f);
    }

    method RecvFrame() returns (r: Result<Frame>)
      modifies input
      ensures var data := old(input.Remaining());
              match DecodeFrame(data)
              case Ok(p) => r == Ok(p.value) && input.Remaining() == data[p.size..]
              case Err(FrameTooLarge) => r == Err(FrameTooLarge) && input.Remaining() == data[HeaderSize(data)..]
              case Err(_) => r == Err(FrameEndError(data)) && input.Remaining() == []
    {
      r := input.ReadFrame();
    }
  }

  /** A nil signer or verifier is replaced when the handshake runs. */
  datatype NodeConfig = NodeConfig(signer: Option<Signer>, verifier: Verifier?, caps: seq<Capability>)

  /** What the environment supplies to one handshake: randomness, clock readings, keys. */
  datatype Environment = Environment(
    ephemeral: Signer, nonce: Nonce, stampMs: int64, now: int, web: WebResolver, check: SignatureCheck)

  function SenderOf(version: Version, cfg: NodeConfig, env: Environment): Sender {
    var signer := match cfg.signer case Some(s) => s case None => env.ephemeral;
    Sender(version, signer, cfg.caps, env.nonce, env.stampMs)
  }

  function ReceiverOf(version: Version, cfg: NodeConfig, env: Environment): Receiver {
    var window := if cfg.verifier == null then REPLAY_WINDOW else cfg.verifier.window;
    Receiver(version, cfg.caps, window, env.web, env.check)
  }

  function CacheOf(cfg: NodeConfig): Cache
    reads if cfg.verifier == null then {} else {cfg.verifier}
  {
    if cfg.verifier == null then map[] else cfg.verifier.cache
  }

  /**
   * What a node writes on the control stream: one HELLO frame with its version, the
   * configured signer's DID (an ephemeral one without a signer) and the
   * configured capabilities, signed by that signer over this nonce and stamp.
   */
  lemma GreetingCarries(version: Version, cfg: NodeConfig, env: Environment, tail: Bytes)
    requires CanGreet(SenderOf(version, cfg, env))
    ensures var signer := if cfg.signer.Some? then cfg.signer.value else env.ephemeral;
            var greeting := Greeting(SenderOf(version, cfg, env));
            && DecodeFrame(greeting + tail).Ok?
            && var (f, n) := (DecodeFrame(greeting + tail).value.value, DecodeFrame(greeting + tail).value.size);
            && n == |greeting| && f.ftype == 0x01 && f.flags == 0 && f.opId == 0 && Signed(f.payload)
            && DecodeHello(f.payload).value.value == Hello(version, signer.did, cfg.caps)
            && var b := BlockOf(f.payload);
            && b.algorithm == 0x01 && b.vmid == signer.vmid && b.nonce == env.nonce && b.timestampMs == env.stampMs
            && b.signature == signer.sign(SignedMessage(0x01, InnerOf(f.payload), b))
  {
    hide EncodeHello, DecodeHello, EncodeBlock, DecodeBlock, EncodeFrame, DecodeFrame, SignedMessage;
    HelloReopens(SenderOf(version, cfg, env), tail);
  }

  /**
   * Two nodes of this code, the receiving one without a verifier of its own: an honest
   * HELLO passes exactly when its stamp is at most 300 seconds off the receiver's
   * clock, as long as the difference fits a Duration.
   */
  lemma DefaultWindow(version: Version, cfg: NodeConfig, env: Environment, peer: NodeConfig, peerEnv: Environment, tail: Bytes)
    requires CanGreet(SenderOf(version, peer, peerEnv)) && version.minor >= 2 && cfg.verifier == null
    requires Honest(SenderOf(version, peer, peerEnv).signer, env.web, env.check)
    requires MIN_INT64 < env.now - peerEnv.stampMs * 1_000_000 <= MAX_INT64
    ensures var ahead := env.now - peerEnv.stampMs * 1_000_000;
            var did := (if peer.signer.Some? then peer.signer.value else peerEnv.ephemeral).did;
            Outcome(ReceiverOf(version, cfg, env), map[], Greeting(SenderOf(version, peer, peerEnv)) + tail, env.now).1 ==
            if -300_000_000_000 <= ahead <= 300_000_000_000
            then Conclude(Receiver(version, cfg.caps, 300_000_000_000, env.web, env.check), Hello(version, did, peer.caps))
            else Err(StaleTimestamp)
  {
    hide Outcome, Greeting, Conclude, CanGreet, Honest, Skew;
    var s, rcv := SenderOf(version, peer, peerEnv), ReceiverOf(version, cfg, env);
    WindowCheckExactly(rcv.window, env.now, s.stampMs);
    if Skew(env.now, s.stampMs) <= rcv.window {
      HonestHelloAccepted(s, tail, rcv, map[], env.now);
    } else {
      StaleHelloRefused(s, tail, rcv, map[], env.now);
    }
  }

  method RunHandshake(ctrl: Stream, version: Version, cfg: NodeConfig, env: Environment)
    returns (r: Result<HandshakeState>)
    requires CanSend(SenderOf(version, cfg, env))
    modifies ctrl, ctrl.input, if cfg.verifier == null then {} else {cfg.verifier}
    ensures ctrl.written == old(ctrl.written) + Greeting(SenderOf(version, cfg, env))
    ensures var (cache, outcome) := Outcome(
              ReceiverOf(version, cfg, env), old(CacheOf(cfg)), old(ctrl.input.Remaining()), env.now);
            r == outcome && (cfg.verifier != null ==> cfg.verifier.cache == cache)
  {
    hide DecodeFrame, DecodeHello, DecodeBlock, BuildSignedHello, EncodeFrame, Step, SignedMessage, Ascii;
    var verifier := cfg.verifier;
    if verifier == null {
      verifier := new Verifier(REPLAY_WINDOW);
    }
    ctrl.SendFrame(HelloFrame(SenderOf(version, cfg, env)));
    ghost var rcv, cache := ReceiverOf(version, cfg, env), verifier.cache;
    var first := ctrl.RecvFrame();
    if first.Err? {
      return Err(first.error);
    }
    var f := first.value;
    if f.ftype != FRAME_HELLO {
      return Err(ProtocolViolation);
    }
    if f.opId != 0 {
      return Err(ProtocolViolation);
    }
    var decoded := DecodeHelloPayload(f.payload);
    if decoded.Err? {
      return Err(decoded.error);
    }
    var hello, trailing := decoded.value.value, f.payload[decoded.value.size..];
    if hello.version.major != version.major {
      return Err(IncompatibleVersion);
    }
    var negotiatedMinor := version.minor;
    if hello.version.minor < negotiatedMinor {
      negotiatedMinor := hello.version.minor;
    }
    if hello.version.minor >= 2 {
      if !HasPrefix(hello.nodeId, DidSchemePrefix()) {
        return Err(MalformedHello);
      }
      if |trailing| == 0 {
        return Err(BadSignature);
      }
      var block := DecodeBlock(trailing);
      if block.Err? {
        return Err(MalformedHello);
      }
      if DidOf(block.value.value) != hello.nodeId {
        return Err(KeyMismatch);
      }
      var message := SignedMessage(FRAME_HELLO, f.payload[..|f.payload| - |trailing|], block.value.value);
      var failure := verifier.Verify(Call(env.now, block.value.value, message, env.web, env.check));
      if failure.Some? {
        return Err(failure.value);
      }
    }
    var active := NegotiateCapabilities(cfg.caps, hello.caps);
    if active.Err? {
      return Err(active.error);
    }
    return Ok(HandshakeState(hello.nodeId, negotiatedMinor, active.value));
  }

  class Conn {
    var ctrl: Stream?
    var state: Option<HandshakeState>
    var closed: bool

    constructor ()
      ensures ctrl == null && state == None && !closed
    {
      ctrl, state, closed := null, None, false;
    }

    /** `qs` is the control stream QUIC hands out, null when it fails to. */
    method Handshake(version: Version, cfg: NodeConfig, env: Environment, qs: Stream?)
      returns (r: Result<HandshakeState>)
      requires CanSend(SenderOf(version, cfg, env))
      modifies this, if qs == null then {} else {qs, qs.input}
      modifies if cfg.verifier == null then {} else {cfg.verifier}
      ensures old(state).Some? ==> r == Err(HandshakeAlreadyCompleted) && unchanged(this)
      ensures old(state).Some? || qs == null ==> CacheOf(cfg) == old(CacheOf(cfg))
      ensures old(state).None? && qs == null ==> r.Err? && closed && state == None && ctrl == old(ctrl)
      ensures old(state).None? && qs != null ==>
        && r == Outcome(ReceiverOf(version, cfg, env), old(CacheOf(cfg)), old(qs.input.Remaining()), env.now).1
        && qs.written == old(qs.written) + Greeting(SenderOf(version, cfg, env))
        && (cfg.verifier != null ==>
             cfg.verifier.cache ==
             Outcome(ReceiverOf(version, cfg, env), old(CacheOf(cfg)), old(qs.input.Remaining()), env.now).0)
        && ctrl == qs
        && state == (if r.Ok? then Some(r.value) else None)
        && closed == (old(closed) || r.Err?)
    {
      hide Outcome, Greeting;
      if state.Some? {
        return Err(HandshakeAlreadyCompleted);
      }
      if qs == null {
        closed := true;
        return Err(Eof);
      }
      ctrl := qs;
      r := RunHandshake(qs, version, cfg, env);
      if r.Err? {
        closed := true;
        return;
      }
      state := Some(r.value);
    }
  }
}
