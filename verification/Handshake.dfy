/** The symmetric HELLO exchange: what each side sends and how it judges the other's HELLO. */
module Handshake {
  import opened Base
  import opened Varint
  import opened Frames
  import opened Streaming
  import opened Capabilities
  import opened SignatureBlocks
  import opened DidKey
  import opened Replay
  import opened HelloCodec

  /** An identity that signs HELLOs on behalf of a DID. */
  datatype Signer = Signer(did: Bytes, vmid: Bytes, sign: Bytes -> Bytes)

  /** Ed25519 key derivation, signing and checking; supplied from outside. */
  datatype Ed25519 = Ed25519(publicKey: Bytes -> Bytes, sign: (Bytes, Bytes) -> Bytes, check: SignatureCheck)

  /** The assumption on Ed25519: 32-byte keys, and a check accepts what signing produced. */
  ghost predicate Correct(e: Ed25519) {
    && (forall priv :: |e.publicKey(priv)| == PUBLIC_KEY_SIZE)
    && forall priv, msg :: e.check(e.publicKey(priv), msg, e.sign(priv, msg))
  }

  function NewDidKeySigner(e: Ed25519, priv: Bytes): Signer {
    var did := MakeDidKey(e.publicKey(priv));
    Signer(did, DidKeyVmid(did), msg => e.sign(priv, msg))
  }

  /** Everything that determines the HELLO a node sends. */
  datatype Sender = Sender(version: Version, signer: Signer, caps: seq<Capability>, nonce: Nonce, stampMs: int64)

  function HelloOf(s: Sender): Hello {
    Hello(s.version, s.signer.did, s.caps)
  }

  predicate FieldsEncodable(s: Sender) {
    HelloEncodable(HelloOf(s)) && |s.signer.vmid| <= MAX_VARINT
  }

  function Unsigned(s: Sender): SignatureBlock {
    SignatureBlock(SIG_ALG_ED25519, s.signer.vmid, s.nonce, s.stampMs, [])
  }

  function MessageOf(s: Sender): Bytes
    requires FieldsEncodable(s)
  {
    SignedMessage(FRAME_HELLO, EncodeHello(HelloOf(s)), Unsigned(s))
  }

  function BlockFor(s: Sender): SignatureBlock
    requires FieldsEncodable(s)
  {
    Unsigned(s).(signature := s.signer.sign(MessageOf(s)))
  }

  predicate CanBuild(s: Sender) {
    FieldsEncodable(s) && SignatureBlocks.Encodable(BlockFor(s))
  }

  function BuildSignedHello(s: Sender): Bytes
    requires CanBuild(s)
  {
    EncodeHello(HelloOf(s)) + EncodeBlock(BlockFor(s))
  }

  function HelloFrame(s: Sender): Frame
    requires CanBuild(s)
  {
    Frame(FRAME_HELLO, 0, 0, BuildSignedHello(s))
  }

  /** The HELLO's frame can be encoded. */
  predicate CanSend(s: Sender) {
    CanBuild(s) && |BuildSignedHello(s)| <= MAX_VARINT
  }

  /** The HELLO also fits the size a receiver accepts. */
  predicate CanGreet(s: Sender) {
    CanSend(s) && |BuildSignedHello(s)| <= MAX_FRAME_SIZE
  }

  datatype HandshakeState = HandshakeState(peerNodeId: Bytes, negotiatedMinor: nat, active: seq<Capability>)

  /** A receiving node: its version, capabilities and means of verification. */
  datatype Receiver = Receiver(
    version: Version, caps: seq<Capability>, window: int64, web: WebResolver, check: SignatureCheck)

  function DidSchemePrefix(): Bytes {
    Ascii("did:")
  }

  /** The checks on the first frame up to and including the major version. */
  function OpenHello(version: Version, f: Frame): (r: Result<Parsed<Hello>>)
    ensures r.Ok? ==> DecodeHello(f.payload) == r
  {
    if f.ftype != FRAME_HELLO || f.opId != 0 then Err(ProtocolViolation)
    else
      var hello :- DecodeHello(f.payload);
      if hello.value.version.major != version.major then Err(IncompatibleVersion) else Ok(hello)
  }

  /** The verification to run on a HELLO of minor 2 or above. */
  function Challenge(rcv: Receiver, payload: Bytes, hello: Parsed<Hello>, now: int): Result<Call>
    requires hello.size <= |payload|
  {
    var trailing := payload[hello.size..];
    if !HasPrefix(hello.value.nodeId, DidSchemePrefix()) then Err(MalformedHello)
    else if |trailing| == 0 then Err(BadSignature)
    else
      var block :- DecodeBlock(trailing).OrElse(MalformedHello);
      if Cut(block.value.vmid).0 != hello.value.nodeId then Err(KeyMismatch)
      else Ok(Call(now, block.value, SignedMessage(FRAME_HELLO, payload[..hello.size], block.value), rcv.web, rcv.check))
  }

  /** The cache after judging a HELLO, and the failure if it is not authentic. */
  function Authenticate(rcv: Receiver, cache: Cache, payload: Bytes, hello: Parsed<Hello>, now: int)
    : (Cache, Option<Error>)
    requires hello.size <= |payload|
  {
    if hello.value.version.minor < 2 then (cache, None)
    else match Challenge(rcv, payload, hello, now)
      case Err(e) => (cache, Some(e))
      case Ok(call) => Step(cache, rcv.window, call)
  }

  /** The state a handshake ends in once the peer's HELLO is believed. */
  function Conclude(rcv: Receiver, hello: Hello): Result<HandshakeState> {
    var active :- Negotiate(rcv.caps, hello.caps);
    Ok(HandshakeState(hello.nodeId, Lower(rcv.version.minor, hello.version.minor), active))
  }

  /** How a node judges the first frame it receives. */
  function Judge(rcv: Receiver, cache: Cache, f: Frame, now: int): (Cache, Result<HandshakeState>) {
    match OpenHello(rcv.version, f)
    case Err(e) => (cache, Err(e))
    case Ok(hello) =>
      var (cache', failure) := Authenticate(rcv, cache, f.payload, hello, now);
      match failure
      case Some(e) => (cache', Err(e))
      case None => (cache', Conclude(rcv, hello.value))
  }

  /** How a node judges the bytes its peer wrote to the control stream. */
  function Outcome(rcv: Receiver, cache: Cache, data: Bytes, now: int): (Cache, Result<HandshakeState>) {
    match DecodeFrame(data)
    case Ok(p) => Judge(rcv, cache, p.value, now)
    case Err(FrameTooLarge) => (cache, Err(FrameTooLarge))
    case Err(_) => (cache, Err(FrameEndError(data)))
  }

  /** What a sender's node puts on the control stream. */
  function Greeting(s: Sender): Bytes
    requires CanSend(s)
  {
    EncodeFrame(HelloFrame(s))
  }

  // The verdict on every first frame

  /** What a believed HELLO leads to: the negotiation's failure, or its result under the peer's id at the lower minor. */
  ghost predicate Concludes(rcv: Receiver, hello: Hello, r: Result<HandshakeState>) {
    match Negotiate(rcv.caps, hello.caps)
    case Err(e) => r == Err(e)
    case Ok(active) =>
      && r.Ok? && r.value.peerNodeId == hello.nodeId && r.value.active == active
      && var minor := r.value.negotiatedMinor;
         minor <= rcv.version.minor && minor <= hello.version.minor && minor in {rcv.version.minor, hello.version.minor}
  }

  /**
   * How every first frame is judged, in the order of the checks. The cache changes
   * only through the verification of a HELLO of minor 2 or above.
   */
  lemma JudgeExactly(rcv: Receiver, cache: Cache, f: Frame, now: int)
    ensures var (after, r) := Judge(rcv, cache, f, now);
            if f.ftype != 0x01 || f.opId != 0 then after == cache && r == Err(ProtocolViolation)
            else match DecodeHello(f.payload)
              case Err(_) => after == cache && r == Err(MalformedHello)
              case Ok(p) =>
                var hello, inner, trailer := p.value, f.payload[..p.size], f.payload[p.size..];
                if hello.version.major != rcv.version.major then after == cache && r == Err(IncompatibleVersion)
                else if hello.version.minor < 2 then after == cache && Concludes(rcv, hello, r)
                else if !(Ascii("did:") <= hello.nodeId) then after == cache && r == Err(MalformedHello)
                else if trailer == [] then after == cache && r == Err(BadSignature)
                else match DecodeBlock(trailer)
                  case Err(_) => after == cache && r == Err(MalformedHello)
                  case Ok(b) =>
                    if Cut(b.value.vmid).0 != hello.nodeId then after == cache && r == Err(KeyMismatch)
                    else
                      var call := Call(now, b.value, SignedMessage(0x01, inner, b.value), rcv.web, rcv.check);
                      var (cache', failure) := Step(cache, rcv.window, call);
                      after == cache' &&
                      match failure case Some(e) => r == Err(e) case None => Concludes(rcv, hello, r)
  {
    hide DecodeHello, DecodeBlock, SignedMessage, Step, Negotiate;
  }

  /** Whatever the peer sends, the negotiated minor is the lower of the two. */
  lemma NegotiatedMinor(rcv: Receiver, cache: Cache, f: Frame, now: int)
    requires Judge(rcv, cache, f, now).1.Ok?
    ensures DecodeHello(f.payload).Ok?
    ensures var minor, theirs := Judge(rcv, cache, f, now).1.value.negotiatedMinor,
                                 DecodeHello(f.payload).value.value.version.minor;
            minor <= rcv.version.minor && minor <= theirs && (minor == rcv.version.minor || minor == theirs)
  {
    hide DecodeHello, Authenticate, Negotiate;
  }

  /** A signer whose VMID resolves, under its own DID, to a key that accepts its signatures. */
  ghost predicate Honest(signer: Signer, web: WebResolver, check: SignatureCheck) {
    && Cut(signer.vmid).0 == signer.did
    && HasPrefix(signer.did, DidSchemePrefix())
    && ResolveKey(web, signer.vmid).Ok?
    && forall msg :: check(ResolveKey(web, signer.vmid).value, msg, signer.sign(msg))
  }

  /** The receiver has room for this HELLO: a fresh nonce and a stamp within the window. */
  ghost predicate Timely(rcv: Receiver, cache: Cache, s: Sender, now: int) {
    && s.nonce !in Lookup(cache, s.signer.did)
    && Skew(now, s.stampMs) <= rcv.window
  }

  lemma DidKeySignerIsHonest(e: Ed25519, priv: Bytes, web: WebResolver)
    requires Correct(e)
    ensures Honest(NewDidKeySigner(e, priv), web, e.check)
    ensures ResolveKey(web, NewDidKeySigner(e, priv).vmid) == Ok(e.publicKey(priv))
  {
    var pub := e.publicKey(priv);
    var did := MakeDidKey(pub);
    CutDidKeyVmid(pub);
    DidKeyCanonical(did, pub);
    assert DidKeyPrefix()[..4] == DidSchemePrefix();
    assert did[..|DidKeyPrefix()|] == DidKeyPrefix();
  }

  /**
   * What a receiver parses from a HELLO built by this code: the sender's fields,
   * its signature block, and byte for byte the message that was signed.
   */
  lemma HelloReopens(s: Sender, tail: Bytes)
    requires CanGreet(s)
    ensures DecodeFrame(EncodeFrame(HelloFrame(s)) + tail) == Ok(Parsed(HelloFrame(s), |EncodeFrame(HelloFrame(s))|))
    ensures Signed(BuildSignedHello(s))
    ensures DecodeHello(BuildSignedHello(s)) == Ok(Parsed(HelloOf(s), |EncodeHello(HelloOf(s))|))
    ensures BlockOf(BuildSignedHello(s)) == BlockFor(s)
    ensures SignedMessage(FRAME_HELLO, InnerOf(BuildSignedHello(s)), BlockOf(BuildSignedHello(s))) == MessageOf(s)
  {
    hide EncodeHello, DecodeHello, EncodeBlock, DecodeBlock, EncodeFrame, DecodeFrame, MetaBytes, Ascii;
    DecodeEncodedFrame(HelloFrame(s), tail);
    var inner, trailer := EncodeHello(HelloOf(s)), EncodeBlock(BlockFor(s));
    DecodeEncodedHello(HelloOf(s), trailer);
    DecodeEncodedBlock(BlockFor(s), []);
    assert trailer + [] == trailer;
    assert (inner + trailer)[..|inner|] == inner && (inner + trailer)[|inner|..] == trailer;
    MetaIgnoresSignature(BlockFor(s), Unsigned(s));
  }

  lemma MetaIgnoresSignature(a: SignatureBlock, b: SignatureBlock)
    requires |a.vmid| <= MAX_VARINT && a == b.(signature := a.signature)
    ensures MetaBytes(a) == MetaBytes(b)
  {
  }

  lemma GreetingIsJudged(s: Sender, tail: Bytes, rcv: Receiver, cache: Cache, now: int)
    requires CanGreet(s)
    ensures Outcome(rcv, cache, Greeting(s) + tail, now) == Judge(rcv, cache, HelloFrame(s), now)
  {
    hide EncodeFrame, DecodeFrame, Judge;
    DecodeEncodedFrame(HelloFrame(s), tail);
  }

  /**
   * Honest acceptance end to end: a HELLO of this code, framed, sent and decoded,
   * passes verification when its nonce is new and its stamp within the window;
   * only the major version and the negotiation are left to decide.
   */
  lemma HonestHelloAccepted(s: Sender, tail: Bytes, rcv: Receiver, cache: Cache, now: int)
    requires CanGreet(s) && Honest(s.signer, rcv.web, rcv.check) && Timely(rcv, cache, s, now)
    ensures Outcome(rcv, cache, Greeting(s) + tail, now).1 ==
            if s.version.major != rcv.version.major then Err(IncompatibleVersion) else Conclude(rcv, HelloOf(s))
  {
    hide EncodeHello, DecodeHello, EncodeBlock, DecodeBlock, EncodeFrame, SignedMessage, Ascii, ResolveKey, Negotiate, Outcome;
    GreetingIsJudged(s, tail, rcv, cache, now);
    HelloReopens(s, []);
    var payload := BuildSignedHello(s);
    var hello := Parsed(HelloOf(s), |EncodeHello(HelloOf(s))|);
    assert OpenHello(rcv.version, HelloFrame(s)) ==
      if s.version.major != rcv.version.major then Err(IncompatibleVersion) else Ok(hello);
    if s.version.major == rcv.version.major && s.version.minor >= 2 {
      var trailing := payload[hello.size..];
      assert |trailing| > 0;
      var call := Call(now, BlockFor(s), MessageOf(s), rcv.web, rcv.check);
      assert Challenge(rcv, payload, hello, now) == Ok(call);
      assert s.signer.did != [] by {
        assert |DidSchemePrefix()| == 4;
      }
      assert Precheck(rcv.window, now, BlockFor(s)).None?;
      assert SignatureVerdict(call).None?;
      assert Step(cache, rcv.window, call).1.None?;
    }
  }

  /** An honest HELLO of minor 2 or above with a stamp outside the window is refused as stale. */
  lemma StaleHelloRefused(s: Sender, tail: Bytes, rcv: Receiver, cache: Cache, now: int)
    requires CanGreet(s) && Honest(s.signer, rcv.web, rcv.check) && Skew(now, s.stampMs) > rcv.window
    requires s.version.major == rcv.version.major && s.version.minor >= 2
    ensures Outcome(rcv, cache, Greeting(s) + tail, now) == (cache, Err(StaleTimestamp))
  {
    hide EncodeHello, DecodeHello, EncodeBlock, DecodeBlock, EncodeFrame, SignedMessage, Ascii, ResolveKey,
      Negotiate, Outcome, Greeting, Skew;
    GreetingIsJudged(s, tail, rcv, cache, now);
    HelloReopens(s, []);
    var payload, hello := BuildSignedHello(s), Parsed(HelloOf(s), |EncodeHello(HelloOf(s))|);
    assert |payload[hello.size..]| > 0;
    assert Challenge(rcv, payload, hello, now) == Ok(Call(now, BlockFor(s), MessageOf(s), rcv.web, rcv.check));
  }

  /**
   * Exactly when an honest, timely HELLO of minor 2 or above is refused before
   * negotiation: some earlier call still holds its nonce for its DID, be it a
   * genuine one or a refused forgery.
   */
  lemma HonestHelloRefusedExactly(s: Sender, tail: Bytes, rcv: Receiver, calls: seq<Call>, k: nat, now: int)
    requires CanGreet(s) && Honest(s.signer, rcv.web, rcv.check) && Skew(now, s.stampMs) <= rcv.window
    requires s.version.major == rcv.version.major && s.version.minor >= 2 && k <= |calls|
    ensures Outcome(rcv, CacheAfter(rcv.window, calls, k), Greeting(s) + tail, now).1 ==
            if Burned(rcv.window, calls, k, s.signer.did, s.nonce) then Err(ReplayedNonce)
            else Conclude(rcv, HelloOf(s))
  {
    hide EncodeHello, DecodeHello, EncodeBlock, DecodeBlock, EncodeFrame, SignedMessage, Ascii, ResolveKey,
      Negotiate, Outcome, Greeting, CacheAfter, Burned, Step, Skew;
    var cache := CacheAfter(rcv.window, calls, k);
    GreetingIsJudged(s, tail, rcv, cache, now);
    HelloReopens(s, []);
    var payload, hello := BuildSignedHello(s), Parsed(HelloOf(s), |EncodeHello(HelloOf(s))|);
    var call := Call(now, BlockFor(s), MessageOf(s), rcv.web, rcv.check);
    assert |payload[hello.size..]| > 0;
    assert Challenge(rcv, payload, hello, now) == Ok(call);
    assert |DidSchemePrefix()| == 4;
    assert Genuine(rcv.window, call);
    GenuineRefusedExactly(rcv.window, calls, k, call);
  }

  /** A greeting cut off at any byte ends the handshake in an end-of-input error and leaves the cache alone. */
  lemma CutGreeting(s: Sender, k: nat, rcv: Receiver, cache: Cache, now: int)
    requires CanGreet(s) && k < |Greeting(s)|
    ensures var n := |EncodeVarint(|BuildSignedHello(s)|)|;
            Outcome(rcv, cache, Greeting(s)[..k], now) ==
            (cache, Err(if k in {0, 2, 3, 4, 3 + n} then Eof else UnexpectedEof))
  {
    hide BuildSignedHello, EncodeFrame, DecodeFrame, Judge, FrameEndError;
    var f := HelloFrame(s);
    StrictPrefixIsShort(f, k);
    CutFrameEnd(f, k);
    EndErrors(Greeting(s)[..k]);
    assert |EncodeVarint(0)| == 1;
  }

  lemma EndErrors(data: Bytes)
    ensures FrameEndError(data) in {Eof, UnexpectedEof}
  {
    hide ReadVarint;
  }

  /** A HELLO above the size limit is sent all the same, and refused. */
  lemma OversizeGreeting(s: Sender, tail: Bytes, rcv: Receiver, cache: Cache, now: int)
    requires CanSend(s) && |BuildSignedHello(s)| > 1_048_576
    ensures Outcome(rcv, cache, Greeting(s) + tail, now) == (cache, Err(FrameTooLarge))
  {
    hide BuildSignedHello, EncodeFrame, DecodeFrame, Judge;
    OversizeRejected(HelloFrame(s), tail);
  }

  /** A completed handshake with a node of this code reports that node's own fields. */
  lemma CompletedHandshake(s: Sender, tail: Bytes, rcv: Receiver, cache: Cache, now: int)
    requires CanGreet(s) && Outcome(rcv, cache, Greeting(s) + tail, now).1.Ok?
    ensures s.version.major == rcv.version.major
    ensures Outcome(rcv, cache, Greeting(s) + tail, now).1 == Conclude(rcv, HelloOf(s))
  {
    hide EncodeHello, DecodeHello, Authenticate, Conclude, Outcome, Greeting;
    GreetingIsJudged(s, tail, rcv, cache, now);
    HelloReopens(s, []);
  }

  /** A node: what it sends, how it receives, its cache and its clock when it verifies. */
  datatype Party = Party(sender: Sender, rcv: Receiver, cache: Cache, now: int)

  ghost predicate Wellformed(p: Party) {
    CanGreet(p.sender) && p.sender.version == p.rcv.version && p.sender.caps == p.rcv.caps
  }

  /** The result at `p` of a handshake in which the peer `q` writes its greeting and then `tail`. */
  function ResultAt(p: Party, q: Party, tail: Bytes): Result<HandshakeState>
    requires CanSend(q.sender)
  {
    Outcome(p.rcv, p.cache, Greeting(q.sender) + tail, p.now).1
  }

  /** Party `p` will find `q`'s HELLO authentic. */
  ghost predicate Believes(p: Party, q: Party) {
    Honest(q.sender.signer, p.rcv.web, p.rcv.check) && Timely(p.rcv, p.cache, q.sender, p.now)
  }

  /**
   * Handshake agreement: if both nodes complete, they hold the same negotiated
   * minor, the same name-to-minor pairs and each other's DID, whatever their
   * clocks and caches; if both HELLOs pass verification, then moreover one
   * side completes exactly when the other does, and both fail alike.
   */
  lemma HandshakeAgreement(a: Party, b: Party, tailA: Bytes, tailB: Bytes)
    requires Wellformed(a) && Wellformed(b)
    ensures var x, y := ResultAt(a, b, tailB), ResultAt(b, a, tailA);
            x.Ok? && y.Ok? ==>
              && x.value.negotiatedMinor == y.value.negotiatedMinor
              && Pairs(x.value.active) == Pairs(y.value.active)
              && x.value.peerNodeId == b.sender.signer.did && y.value.peerNodeId == a.sender.signer.did
    ensures var x, y := ResultAt(a, b, tailB), ResultAt(b, a, tailA);
            Believes(a, b) && Believes(b, a) ==>
              (x.Ok? <==> y.Ok?) && (x.Err? ==> y == x)
  {
    hide Outcome, Greeting, Negotiate, Pairs;
    NegotiationSymmetric(a.sender.caps, b.sender.caps);
    if ResultAt(a, b, tailB).Ok? && ResultAt(b, a, tailA).Ok? {
      CompletedHandshake(b.sender, tailB, a.rcv, a.cache, a.now);
      CompletedHandshake(a.sender, tailA, b.rcv, b.cache, b.now);
    }
    if Believes(a, b) && Believes(b, a) {
      HonestHelloAccepted(a.sender, tailA, b.rcv, b.cache, b.now);
      HonestHelloAccepted(b.sender, tailB, a.rcv, a.cache, a.now);
    }
  }

  /** The first frame is a HELLO of a minor at which HELLOs are signed; readable before any check. */
  ghost predicate SaysSigned(f: Frame) {
    DecodeHello(f.payload).Ok? && DecodeHello(f.payload).value.value.version.minor >= 2
  }

  /** The peer id is the DID of a VMID whose resolved key accepts the signature over this HELLO. */
  ghost predicate Vouched(web: WebResolver, check: SignatureCheck, f: Frame, peerNodeId: Bytes) {
    && Signed(f.payload)
    && var block := BlockOf(f.payload);
    && peerNodeId == DecodeHello(f.payload).value.value.nodeId == DidOf(block)
    && ResolveKey(web, block.vmid).Ok?
    && var key := ResolveKey(web, block.vmid).value;
    && check(key, SignedMessage(FRAME_HELLO, InnerOf(f.payload), block), block.signature)
    && (HasPrefix(peerNodeId, DidKeyPrefix()) ==> peerNodeId == MakeDidKey(key))
  }

  /**
   * Identity binding, for every frame a peer may send: a handshake completed with a
   * HELLO of minor 2 or above means the HELLO carried a signature that checked
   * under the key its VMID resolves to, the VMID's DID is the reported peer id,
   * a did:key peer id is the did:key of that very key, the stamp was in the
   * window and the nonce new.
   */
  lemma IdentityBinding(rcv: Receiver, cache: Cache, f: Frame, now: int)
    requires Judge(rcv, cache, f, now).1.Ok? && SaysSigned(f)
    ensures Vouched(rcv.web, rcv.check, f, Judge(rcv, cache, f, now).1.value.peerNodeId)
    ensures Skew(now, BlockOf(f.payload).timestampMs) <= rcv.window
    ensures Record(cache, rcv.window, now, BlockOf(f.payload)) == Ok(Judge(rcv, cache, f, now).0)
  {
    hide DecodeHello, DecodeBlock, SignedMessage, Ascii, ParseDidKey, MakeDidKey, Negotiate;
    var hello := OpenHello(rcv.version, f).value;
    var call := Challenge(rcv, f.payload, hello, now).value;
    var block := BlockOf(f.payload);
    assert call.block == block;
    var key := ResolveKey(rcv.web, block.vmid).value;
    if HasPrefix(DidOf(block), DidKeyPrefix()) {
      DidKeyCanonical(DidOf(block), key);
    }
  }

  /**
   * Below minor 2 the peer id is whatever the HELLO says: any node id string is
   * reported without a signature and without touching the cache.
   */
  lemma OldHelloUnverified(rcv: Receiver, cache: Cache, h: Hello, tail: Bytes, now: int)
    requires HelloEncodable(h) && h.version.minor < 2 && h.version.major == rcv.version.major
    ensures Judge(rcv, cache, Frame(FRAME_HELLO, 0, 0, EncodeHello(h) + tail), now) == (cache, Conclude(rcv, h))
  {
    hide EncodeHello, DecodeHello, Conclude;
    DecodeEncodedHello(h, tail);
  }

  /**
   * Exactly when a completed handshake has authenticated its peer: it would still
   * complete if no signature ever checked, exactly when the peer's HELLO has a
   * minor below 2, whatever the minor that was negotiated.
   */
  lemma AuthenticatedExactly(rcv: Receiver, cache: Cache, f: Frame, now: int)
    requires Judge(rcv, cache, f, now).1.Ok?
    ensures Judge(rcv.(check := (_, _, _) => false), cache, f, now).1.Ok? <==> !SaysSigned(f)
  {
    hide DecodeHello, DecodeBlock, SignedMessage, Ascii, ResolveKey, Record, Precheck, Negotiate;
  }
}
