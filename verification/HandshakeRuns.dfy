/** All the handshakes a node judges with one verifier, in the order their HELLOs reach it. */
module HandshakeRuns {
  import opened Base
  import opened Varint
  import opened Frames
  import opened SignatureBlocks
  import opened DidKey
  import opened Replay
  import opened HelloCodec
  import opened Handshake

  /** A first frame and the clock reading when it is verified. */
  datatype Attempt = Attempt(frame: Frame, now: int)

  ghost function CacheAt(rcv: Receiver, attempts: seq<Attempt>, k: nat): Cache
    requires k <= |attempts|
  {
    if k == 0 then map[]
    else Judge(rcv, CacheAt(rcv, attempts, k - 1), attempts[k - 1].frame, attempts[k - 1].now).0
  }

  ghost function ResultOf(rcv: Receiver, attempts: seq<Attempt>, i: nat): Result<HandshakeState>
    requires i < |attempts|
  {
    Judge(rcv, CacheAt(rcv, attempts, i), attempts[i].frame, attempts[i].now).1
  }

  /** The handshake completed with a HELLO of a minor at which HELLOs are signed. */
  ghost predicate Authenticated(rcv: Receiver, attempts: seq<Attempt>, i: nat)
    requires i < |attempts|
  {
    ResultOf(rcv, attempts, i).Ok? && SaysSigned(attempts[i].frame)
  }

  /** The verifier call an attempt makes; one that fails at once stands for making none. */
  ghost function CallFor(rcv: Receiver, a: Attempt): Call {
    var none := Call(a.now, SignatureBlock(0, [], seq(16, _ => 0), 0, []), [], rcv.web, rcv.check);
    match OpenHello(rcv.version, a.frame)
    case Err(_) => none
    case Ok(hello) =>
      if hello.value.version.minor < 2 then none
      else match Challenge(rcv, a.frame.payload, hello, a.now)
        case Err(_) => none
        case Ok(call) => call
  }

  ghost function CallsFor(rcv: Receiver, attempts: seq<Attempt>): (calls: seq<Call>)
    ensures |calls| == |attempts|
  {
    seq(|attempts|, i requires 0 <= i < |attempts| => CallFor(rcv, attempts[i]))
  }

  lemma JudgeStepsCache(rcv: Receiver, cache: Cache, a: Attempt)
    ensures Judge(rcv, cache, a.frame, a.now).0 == Step(cache, rcv.window, CallFor(rcv, a)).0
    ensures Judge(rcv, cache, a.frame, a.now).1.Ok? && SaysSigned(a.frame) ==>
              Step(cache, rcv.window, CallFor(rcv, a)).1.None?
  {
    hide DecodeHello, Challenge, Record, SignatureVerdict;
  }

  lemma {:induction false} CachesAgree(rcv: Receiver, attempts: seq<Attempt>, k: nat)
    requires k <= |attempts|
    ensures CacheAt(rcv, attempts, k) == CacheAfter(rcv.window, CallsFor(rcv, attempts), k)
  {
    if k > 0 {
      assert CallsFor(rcv, attempts)[k - 1] == CallFor(rcv, attempts[k - 1]);
      hide Judge, Step, CallFor, CallsFor;
      CachesAgree(rcv, attempts, k - 1);
      JudgeStepsCache(rcv, CacheAt(rcv, attempts, k - 1), attempts[k - 1]);
    }
  }

  lemma AuthenticatedIsAccepted(rcv: Receiver, attempts: seq<Attempt>, i: nat)
    requires i < |attempts| && Authenticated(rcv, attempts, i)
    ensures Signed(attempts[i].frame.payload)
    ensures CallsFor(rcv, attempts)[i].block == BlockOf(attempts[i].frame.payload)
    ensures Accepted(rcv.window, CallsFor(rcv, attempts), i)
  {
    CachesAgree(rcv, attempts, i);
    JudgeStepsCache(rcv, CacheAt(rcv, attempts, i), attempts[i]);
    hide DecodeHello, DecodeBlock, SignedMessage, Ascii, Step, Conclude;
    assert OpenHello(rcv.version, attempts[i].frame).Ok?;
  }

  /**
   * A signed HELLO message authenticates at most one handshake at a verifier: over
   * every run of attempts in clock order, two authenticated handshakes never
   * rebuilt the same signed message, however the bytes around it were varied.
   */
  lemma MessageAuthenticatesOnce(rcv: Receiver, attempts: seq<Attempt>, i: nat, j: nat)
    requires rcv.window < MAX_INT64 && ClockOrdered(rcv.window, CallsFor(rcv, attempts))
    requires i < j < |attempts| && Authenticated(rcv, attempts, i) && Authenticated(rcv, attempts, j)
    ensures var p, q := attempts[i].frame.payload, attempts[j].frame.payload;
            && Signed(p) && Signed(q)
            && SignedMessage(FRAME_HELLO, InnerOf(p), BlockOf(p)) != SignedMessage(FRAME_HELLO, InnerOf(q), BlockOf(q))
  {
    AuthenticatedIsAccepted(rcv, attempts, i);
    AuthenticatedIsAccepted(rcv, attempts, j);
    hide DecodeHello, DecodeBlock, SignedMessage, ClockOrdered, Accepted, CallFor, Authenticated;
    var p, q := attempts[i].frame.payload, attempts[j].frame.payload;
    if SignedMessage(FRAME_HELLO, InnerOf(p), BlockOf(p)) == SignedMessage(FRAME_HELLO, InnerOf(q), BlockOf(q)) {
      SignedMessageBinds(p, q, FRAME_HELLO, FRAME_HELLO);
      NoReplay(rcv.window, CallsFor(rcv, attempts), i, j);
      assert false;
    }
  }

  /** A node with a did:web identity whose lookup and signatures always succeed. */
  function ExampleParty(): Party {
    var did := Ascii("did:web:x");
    var version := Version(0, 2);
    var signer := Signer(did, did + [HASH, 1], _ => []);
    Party(
      Sender(version, signer, [], seq(16, _ => 0), 0),
      Receiver(version, [], REPLAY_WINDOW, (_, _) => Ok([]), (_, _, _) => true),
      map[], 0)
  }

  lemma ExampleFits()
    ensures CanGreet(ExampleParty().sender)
  {
    var s := ExampleParty().sender;
    hide EncodeVarint, Ascii, SignedMessage;
    assert |EncodeHello(HelloOf(s))| <= 60;
    assert |EncodeBlock(BlockFor(s))| <= 80;
  }

  lemma ExampleHonest()
    ensures var p := ExampleParty(); Honest(p.sender.signer, p.rcv.web, p.rcv.check)
  {
    var signer := ExampleParty().sender.signer;
    CutAtFirst(signer.did, [1]);
    assert signer.vmid == signer.did + [HASH] + [1];
    assert WebPrefix()[..4] == DidSchemePrefix() && signer.did[..8] == WebPrefix();
    assert WebPrefix()[4] != DidKeyPrefix()[4];
  }

  lemma ExampleSaysSigned()
    requires CanGreet(ExampleParty().sender)
    ensures SaysSigned(HelloFrame(ExampleParty().sender))
  {
    hide DecodeHello, EncodeHello, DecodeBlock, EncodeBlock, Ascii;
    HelloReopens(ExampleParty().sender, []);
  }

  /** The assumptions of the handshake results can be met: two such nodes complete at minor 2. */
  lemma ExampleHandshake()
    ensures var p := ExampleParty();
            && Wellformed(p) && Believes(p, p)
            && ResultAt(p, p, []) == Ok(HandshakeState(p.sender.signer.did, 2, []))
            && Authenticated(p.rcv, [Attempt(HelloFrame(p.sender), p.now)], 0)
  {
    var p := ExampleParty();
    hide CanGreet, Outcome, Greeting, Judge, Honest, Ascii;
    ExampleFits();
    ExampleHonest();
    HonestHelloAccepted(p.sender, [], p.rcv, p.cache, p.now);
    GreetingIsJudged(p.sender, [], p.rcv, p.cache, p.now);
    ExampleSaysSigned();
  }
}
