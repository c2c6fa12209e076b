/** Signature verification with the per-DID nonce cache that stops replays. */
module Replay {
  import opened Base
  import opened SignatureBlocks
  import opened DidKey

  const NS_PER_MS: int := 1_000_000

  /** 300 seconds. */
  const REPLAY_WINDOW: int64 := 300_000_000_000

  /** Ed25519 verification of (key, message, signature), RFC 8032; supplied from outside. */
  type SignatureCheck = (Bytes, Bytes, Bytes) -> bool

  /** Key lookup for a did:web DID and fragment; supplied from outside, fails without a Resolver. */
  type WebResolver = (Bytes, Bytes) -> Result<Bytes>

  type Nonces = map<Nonce, int64>
  type Cache = map<Bytes, Nonces>

  /** One call of Verify with the clock reading (nanoseconds since the epoch) it takes. */
  datatype Call = Call(
    now: int,
    block: SignatureBlock,
    message: Bytes,
    web: WebResolver,
    check: SignatureCheck)

  /** Time.Sub clamps a difference to the range of a Duration. */
  function Clamp(x: int): int64 {
    if x < MIN_INT64 then MIN_INT64 else if x > MAX_INT64 then MAX_INT64 else x
  }

  /** Negation of a Duration, which leaves the least value as it is. */
  function Negate(x: int64): int64 {
    if x == MIN_INT64 then x else 0 - x
  }

  function Skew(now: int, stampMs: int64): int64 {
    var d := Clamp(now - stampMs * NS_PER_MS);
    if d < 0 then Negate(d) else d
  }

  /** now.Add(-window).UnixMilli(), which rounds down. */
  function Cutoff(window: int64, now: int): (ms: int)
    ensures ms * NS_PER_MS <= now + Negate(window) < (ms + 1) * NS_PER_MS
  {
    (now + Negate(window)) / NS_PER_MS
  }

  function DidOf(block: SignatureBlock): Bytes {
    Cut(block.vmid).0
  }

  function Lookup(cache: Cache, did: Bytes): Nonces {
    if did in cache then cache[did] else map[]
  }

  function Evict(nonces: Nonces, cutoff: int): Nonces {
    map n | n in nonces && nonces[n] >= cutoff :: nonces[n]
  }

  /** Everything before the lock is taken: algorithm, timestamp window, DID. */
  function Precheck(window: int64, now: int, block: SignatureBlock): Option<Error> {
    if block.algorithm != SIG_ALG_ED25519 then Some(BadSignature)
    else if Skew(now, block.timestampMs) > window then Some(StaleTimestamp)
    else if DidOf(block) == [] then Some(UnresolvableDid)
    else None
  }

  /** The section under the lock: look the nonce up, evict, record. */
  function Record(cache: Cache, window: int64, now: int, block: SignatureBlock): Result<Cache> {
    var did := DidOf(block);
    var nonces := Lookup(cache, did);
    if block.nonce in nonces then Err(ReplayedNonce)
    else Ok(cache[did := Evict(nonces, Cutoff(window, now))[block.nonce := block.timestampMs]])
  }

  function WebPrefix(): Bytes {
    Ascii("did:web:")
  }

  function ResolveKey(web: WebResolver, vmid: Bytes): Result<Bytes> {
    var (did, fragment) := Cut(vmid);
    if HasPrefix(did, DidKeyPrefix()) then ParseDidKey(did)
    else if HasPrefix(did, WebPrefix()) then
      if fragment == [] then Err(UnresolvableDid) else web(did, fragment)
    else Err(UnresolvableDid)
  }

  /**
   * Where a key comes from: the only did:key string that names it, or the lookup
   * of a did:web DID with a fragment.
   */
  ghost predicate NamesKey(web: WebResolver, vmid: Bytes, key: Bytes) {
    || (|key| == 32 && Cut(vmid).0 == MakeDidKey(key))
    || (Ascii("did:web:") <= Cut(vmid).0 && Cut(vmid).1 != [] && web(Cut(vmid).0, Cut(vmid).1) == Ok(key))
  }

  lemma KeyOrigin(web: WebResolver, vmid: Bytes, key: Bytes)
    ensures ResolveKey(web, vmid) == Ok(key) <==> NamesKey(web, vmid, key)
  {
    var did := Cut(vmid).0;
    DidKeyCanonical(did, key);
    assert WebPrefix()[4] != DidKeyPrefix()[4];
    hide ParseDidKey, EncodeMultibase, Ascii;
    assert MakeDidKey(key)[..|DidKeyPrefix()|] == DidKeyPrefix();
  }

  /** What follows the unlock: resolve the key and check the signature. */
  function SignatureVerdict(call: Call): Option<Error> {
    match ResolveKey(call.web, call.block.vmid)
    case Err(_) => Some(UnresolvableDid)
    case Ok(key) => if call.check(key, call.message, call.block.signature) then None else Some(BadSignature)
  }

  /** The cache after a call and the call's error, if any. */
  function Step(cache: Cache, window: int64, call: Call): (Cache, Option<Error>) {
    match Precheck(window, call.now, call.block)
    case Some(e) => (cache, Some(e))
    case None =>
      match Record(cache, window, call.now, call.block)
      case Err(e) => (cache, Some(e))
      case Ok(cache') => (cache', SignatureVerdict(call))
  }

  class Verifier {
    const window: int64
    var cache: Cache

    constructor (window: int64)
      ensures this.window == window && cache == map[]
    {
      this.window := window;
      cache := map[];
    }

    /** The order of the checks is the code's: the nonce is recorded before the signature is checked. */
    method Verify(call: Call) returns (failure: Option<Error>)
      modifies this
      ensures (cache, failure) == Step(old(cache), window, call)
    {
      hide Cut, ParseDidKey, HasPrefix;
      var block := call.block;
      if block.algorithm != SIG_ALG_ED25519 {
        return Some(BadSignature);
      }
      var skew := Clamp(call.now - block.timestampMs * NS_PER_MS);
      if skew < 0 {
        skew := Negate(skew);
      }
      if skew > window {
        return Some(StaleTimestamp);
      }
      var did := Cut(block.vmid).0;
      if did == [] {
        return Some(UnresolvableDid);
      }
      ghost var had := Lookup(cache, did);
      if did !in cache {
        cache := cache[did := map[]];
      }
      if block.nonce in cache[did] {
        return Some(ReplayedNonce);
      }
      var cutoff := Cutoff(window, call.now);
      var pending := cache[did].Keys;
      while pending != {}
        invariant did in cache && cache == old(cache)[did := cache[did]]
        invariant pending <= cache[did].Keys <= had.Keys
        invariant forall n :: n in had ==> (n in cache[did] <==> n in pending || had[n] >= cutoff)
        invariant forall n :: n in cache[did] ==> cache[did][n] == had[n]
      {
        var n :| n in pending;
        pending := pending - {n};
        if cache[did][n] < cutoff {
          var rest: Nonces := cache[did] - {n};
          cache := cache[did := rest];
        }
      }
      assert cache[did] == Evict(had, cutoff);
      var nonces: Nonces := cache[did];
      nonces := nonces[block.nonce := block.timestampMs];
      cache := cache[did := nonces];
      assert cache == old(cache)[did := Evict(had, cutoff)[block.nonce := block.timestampMs]];
      var key := ResolveKey(call.web, block.vmid);
      if key.Err? {
        return Some(UnresolvableDid);
      }
      if !call.check(key.value, call.message, block.signature) {
        return Some(BadSignature);
      }
      return None;
    }
  }

  // What one call decides and records

  /** Nothing stands in front of the '#' of the VMID. */
  predicate Anonymous(vmid: Bytes) {
    vmid == [] || vmid[0] == '#' as int
  }

  lemma AnonymousExactly(vmid: Bytes)
    ensures Cut(vmid).0 == [] <==> Anonymous(vmid)
  {
  }

  lemma ResolvesExactly(c: Call)
    ensures ResolveKey(c.web, c.block.vmid).Ok? <==> exists key :: NamesKey(c.web, c.block.vmid, key)
    ensures SignatureVerdict(c).None? <==>
            exists key :: NamesKey(c.web, c.block.vmid, key) && c.check(key, c.message, c.block.signature)
  {
    hide NamesKey, ResolveKey;
    forall key
      ensures ResolveKey(c.web, c.block.vmid) == Ok(key) <==> NamesKey(c.web, c.block.vmid, key)
    {
      KeyOrigin(c.web, c.block.vmid, key);
    }
  }

  /** The verdict on every call, in the order of the checks; the last two come after the nonce is recorded. */
  lemma VerifyExactly(cache: Cache, window: int64, c: Call)
    ensures var b := c.block;
            Step(cache, window, c).1 ==
            if b.algorithm != 0x01 then Some(BadSignature)
            else if !InWindow(window, c.now, b.timestampMs) then Some(StaleTimestamp)
            else if Anonymous(b.vmid) then Some(UnresolvableDid)
            else if Cut(b.vmid).0 in cache && b.nonce in cache[Cut(b.vmid).0] then Some(ReplayedNonce)
            else if !exists key :: NamesKey(c.web, b.vmid, key) then Some(UnresolvableDid)
            else if !exists key :: NamesKey(c.web, b.vmid, key) && c.check(key, c.message, b.signature) then Some(BadSignature)
            else None
  {
    WindowCheckExactly(window, c.now, c.block.timestampMs);
    AnonymousExactly(c.block.vmid);
    ResolvesExactly(c);
    hide Skew, InWindow, Cut, ResolveKey, NamesKey, Anonymous;
  }

  /** The call gets as far as recording its nonce. */
  predicate Records(cache: Cache, window: int64, c: Call) {
    && c.block.algorithm == 0x01 && InWindow(window, c.now, c.block.timestampMs) && !Anonymous(c.block.vmid)
    && (Cut(c.block.vmid).0 in cache ==> c.block.nonce !in cache[Cut(c.block.vmid).0])
  }

  /**
   * What a call leaves in the cache: nothing changes unless it records; then its own
   * DID loses the stamps older than the window, rounded down to milliseconds,
   * and gains the nonce with its stamp.
   */
  lemma CacheExactly(cache: Cache, window: int64, c: Call, did: Bytes, nonce: Nonce, stamp: int64)
    ensures !Records(cache, window, c) ==> Step(cache, window, c).0 == cache
    ensures Records(cache, window, c) ==>
            var age := if window == MIN_INT64 then MIN_INT64 else 0 - window;
            Holds(Lookup(Step(cache, window, c).0, did), nonce, stamp) <==>
            || (did == Cut(c.block.vmid).0 && nonce == c.block.nonce && stamp == c.block.timestampMs)
            || (Holds(Lookup(cache, did), nonce, stamp) &&
                (did == Cut(c.block.vmid).0 ==> c.now + age < (stamp + 1) * 1_000_000))
  {
    WindowCheckExactly(window, c.now, c.block.timestampMs);
    AnonymousExactly(c.block.vmid);
    hide Skew, InWindow, Cut, SignatureVerdict, Anonymous;
  }

  // Whole runs

  /** The cache after the first `k` calls on a fresh verifier. */
  ghost function CacheAfter(window: int64, calls: seq<Call>, k: nat): Cache
    requires k <= |calls|
  {
    if k == 0 then map[] else Step(CacheAfter(window, calls, k - 1), window, calls[k - 1]).0
  }

  /** Call `i` takes the lock. */
  ghost predicate Reaches(window: int64, calls: seq<Call>, i: nat)
    requires i < |calls|
  {
    Precheck(window, calls[i].now, calls[i].block).None?
  }

  /** Call `i` stores its nonce, whether or not its signature then checks. */
  ghost predicate Recorded(window: int64, calls: seq<Call>, i: nat)
    requires i < |calls|
  {
    && Reaches(window, calls, i)
    && Record(CacheAfter(window, calls, i), window, calls[i].now, calls[i].block).Ok?
  }

  ghost predicate Accepted(window: int64, calls: seq<Call>, i: nat)
    requires i < |calls|
  {
    Step(CacheAfter(window, calls, i), window, calls[i]).1.None?
  }

  /** The locked sections run in the order of the clock readings taken before them. */
  ghost predicate ClockOrdered(window: int64, calls: seq<Call>) {
    forall i, j :: 0 <= i < j < |calls| && Reaches(window, calls, i) && Reaches(window, calls, j) ==>
      calls[i].now <= calls[j].now
  }

  ghost predicate SameDid(calls: seq<Call>, i: nat, j: nat)
    requires i < |calls| && j < |calls|
  {
    DidOf(calls[i].block) == DidOf(calls[j].block)
  }

  /** No recording call for the same DID between `i` and `k` evicted what call `i` stored. */
  ghost predicate Retained(window: int64, calls: seq<Call>, k: nat, i: nat)
    requires i < k <= |calls|
  {
    && Recorded(window, calls, i)
    && forall j :: i < j < k && Recorded(window, calls, j) && SameDid(calls, i, j) ==>
         calls[i].block.timestampMs >= Cutoff(window, calls[j].now)
  }

  /** Call `i` is for this DID, nonce and timestamp. */
  ghost predicate Carries(call: Call, did: Bytes, nonce: Nonce, stamp: int64) {
    DidOf(call.block) == did && call.block.nonce == nonce && call.block.timestampMs == stamp
  }

  ghost predicate Holds(nonces: Nonces, nonce: Nonce, stamp: int64) {
    nonce in nonces && nonces[nonce] == stamp
  }

  lemma CutoffMonotone(window: int64, t: int, u: int)
    requires t <= u
    ensures Cutoff(window, t) <= Cutoff(window, u)
  {
  }

  lemma LaterCutoff(window: int64, t: int, u: int)
    requires Cutoff(window, t) < Cutoff(window, u)
    ensures t < u
  {
  }

  /** A timestamp that passes the window check is not below the cutoff of the same moment. */
  lemma FreshIsAboveCutoff(window: int64, now: int, stamp: int64)
    requires window < MAX_INT64 && Skew(now, stamp) <= window
    ensures stamp >= Cutoff(window, now)
  {
    assert stamp * NS_PER_MS >= now + Negate(window);
  }

  /** How one call changes the entry of one DID. */
  lemma EntryAfterStep(cache: Cache, window: int64, c: Call, did: Bytes, nonce: Nonce, stamp: int64)
    ensures var before, after := Lookup(cache, did), Lookup(Step(cache, window, c).0, did);
            if && Precheck(window, c.now, c.block).None? && Record(cache, window, c.now, c.block).Ok?
               && DidOf(c.block) == did
            then Holds(after, nonce, stamp) <==>
                 Carries(c, did, nonce, stamp) || (Holds(before, nonce, stamp) && stamp >= Cutoff(window, c.now))
            else after == before
  {
    hide Cut, Skew, Cutoff, SignatureVerdict;
  }

  /** One more call keeps what was retained unless it evicts it. */
  lemma RetainedAfterOne(window: int64, calls: seq<Call>, k: nat, i: nat)
    requires i < k < |calls|
    ensures Retained(window, calls, k + 1, i) <==>
            && Retained(window, calls, k, i)
            && (Recorded(window, calls, k) && SameDid(calls, i, k) ==>
                 calls[i].block.timestampMs >= Cutoff(window, calls[k].now))
  {
    hide Recorded, SameDid, Cutoff;
  }

  /** Some retained call among the first `k` stored this. */
  ghost predicate Stored(window: int64, calls: seq<Call>, k: nat, did: Bytes, nonce: Nonce, stamp: int64)
    requires k <= |calls|
  {
    exists i :: 0 <= i < k && Retained(window, calls, k, i) && Carries(calls[i], did, nonce, stamp)
  }

  lemma StoredAfterOne(window: int64, calls: seq<Call>, k: nat, did: Bytes, nonce: Nonce, stamp: int64)
    requires k < |calls|
    ensures var c := calls[k];
            Stored(window, calls, k + 1, did, nonce, stamp) <==>
            if Recorded(window, calls, k) && DidOf(c.block) == did
            then Carries(c, did, nonce, stamp) || (Stored(window, calls, k, did, nonce, stamp) && stamp >= Cutoff(window, c.now))
            else Stored(window, calls, k, did, nonce, stamp)
  {
    forall i | 0 <= i < k
      ensures Retained(window, calls, k + 1, i) <==>
              && Retained(window, calls, k, i)
              && (Recorded(window, calls, k) && SameDid(calls, i, k) ==>
                   calls[i].block.timestampMs >= Cutoff(window, calls[k].now))
    {
      RetainedAfterOne(window, calls, k, i);
    }
    assert Retained(window, calls, k + 1, k) <==> Recorded(window, calls, k) by {
      hide Recorded, Cutoff, DidOf;
    }
    hide Recorded, Cutoff, DidOf, Retained;
  }

  /** The cache entry of a DID after `k` calls is what its retained recording calls stored. */
  lemma {:induction false} CacheHoldsRetained(window: int64, calls: seq<Call>, k: nat, did: Bytes, nonce: Nonce, stamp: int64)
    requires k <= |calls|
    ensures Holds(Lookup(CacheAfter(window, calls, k), did), nonce, stamp)
       <==> Stored(window, calls, k, did, nonce, stamp)
  {
    if k > 0 {
      hide Precheck, Record, Step, Stored, Cutoff, DidOf, Holds, Carries, Lookup;
      var m := k - 1;
      CacheHoldsRetained(window, calls, m, did, nonce, stamp);
      EntryAfterStep(CacheAfter(window, calls, m), window, calls[m], did, nonce, stamp);
      StoredAfterOne(window, calls, m, did, nonce, stamp);
    }
  }

  lemma RecordedIsAboveCutoff(window: int64, calls: seq<Call>, k: nat)
    requires window < MAX_INT64 && k < |calls| && Recorded(window, calls, k)
    ensures calls[k].block.timestampMs >= Cutoff(window, calls[k].now)
  {
    hide Record, CacheAfter, Skew, Cutoff, DidOf;
    FreshIsAboveCutoff(window, calls[k].now, calls[k].block.timestampMs);
  }

  /** At a recording call, clock order reduces retention to that call's own cutoff. */
  lemma RetainedAtRecording(window: int64, calls: seq<Call>, k: nat, i: nat)
    requires window < MAX_INT64 && ClockOrdered(window, calls)
    requires i <= k < |calls| && Recorded(window, calls, k) && SameDid(calls, i, k)
    ensures Retained(window, calls, k + 1, i) <==>
            Recorded(window, calls, i) && calls[i].block.timestampMs >= Cutoff(window, calls[k].now)
  {
    hide Cutoff, DidOf, Record, Precheck, CacheAfter;
    RecordedIsAboveCutoff(window, calls, k);
    forall j | i < j <= k && Recorded(window, calls, j)
      ensures Cutoff(window, calls[j].now) <= Cutoff(window, calls[k].now)
    {
      assert j < k ==> Reaches(window, calls, j) && Reaches(window, calls, k);
      CutoffMonotone(window, calls[j].now, calls[k].now);
    }
    hide ClockOrdered, Recorded, Reaches;
  }

  /**
   * The evicting cache agrees with the full history: right after a recording
   * call, its DID's entry is exactly what all recording calls so far for that
   * DID stored with a timestamp at or above the cutoff of that moment.
   */
  lemma CacheIsHistory(window: int64, calls: seq<Call>, k: nat, nonce: Nonce, stamp: int64)
    requires window < MAX_INT64 && ClockOrdered(window, calls)
    requires k < |calls| && Recorded(window, calls, k)
    ensures Holds(Lookup(CacheAfter(window, calls, k + 1), DidOf(calls[k].block)), nonce, stamp)
       <==> stamp >= Cutoff(window, calls[k].now)
            && exists i :: 0 <= i <= k && Recorded(window, calls, i)
                           && Carries(calls[i], DidOf(calls[k].block), nonce, stamp)
  {
    hide Cutoff, DidOf, Recorded, Retained, Holds, ClockOrdered, CacheAfter;
    var did := DidOf(calls[k].block);
    CacheHoldsRetained(window, calls, k + 1, did, nonce, stamp);
    forall i | 0 <= i <= k && Carries(calls[i], did, nonce, stamp)
      ensures Retained(window, calls, k + 1, i) <==>
              Recorded(window, calls, i) && stamp >= Cutoff(window, calls[k].now)
    {
      RetainedAtRecording(window, calls, k, i);
    }
  }

  /** A recorded nonce that is recorded again was evicted by a recording call in between. */
  lemma EvictedBetween(window: int64, calls: seq<Call>, i: nat, j: nat) returns (m: nat)
    requires i < j < |calls| && Recorded(window, calls, i) && Recorded(window, calls, j)
    requires SameDid(calls, i, j) && calls[i].block.nonce == calls[j].block.nonce
    ensures i < m < j && Recorded(window, calls, m) && SameDid(calls, i, m)
    ensures calls[i].block.timestampMs < Cutoff(window, calls[m].now)
  {
    var a := calls[i].block;
    CacheHoldsRetained(window, calls, j, DidOf(a), a.nonce, a.timestampMs);
    assert Carries(calls[i], DidOf(a), a.nonce, a.timestampMs);
    assert !Retained(window, calls, j, i);
    m :| i < m < j && Recorded(window, calls, m) && SameDid(calls, i, m)
      && a.timestampMs < Cutoff(window, calls[m].now);
  }

  /**
   * Two recording calls for one DID may share a nonce only if the first one's
   * timestamp had left the window by the second one's clock, so they never
   * share the timestamp as well.
   */
  lemma RecordedTwice(window: int64, calls: seq<Call>, i: nat, j: nat)
    requires window < MAX_INT64 && ClockOrdered(window, calls)
    requires i < j < |calls| && Recorded(window, calls, i) && Recorded(window, calls, j)
    requires SameDid(calls, i, j) && calls[i].block.nonce == calls[j].block.nonce
    ensures calls[i].block.timestampMs < Cutoff(window, calls[j].now)
    ensures calls[i].block.timestampMs != calls[j].block.timestampMs
  {
    var m := EvictedBetween(window, calls, i, j);
    CutoffMonotone(window, calls[m].now, calls[j].now);
    RecordedIsAboveCutoff(window, calls, j);
  }

  /**
   * Without any assumption on the order of the clock readings: one DID, nonce and
   * timestamp is recorded twice only around a recording call whose clock reading
   * is later than that of the repetition.
   */
  lemma RepeatNeedsInversion(window: int64, calls: seq<Call>, i: nat, j: nat) returns (m: nat)
    requires window < MAX_INT64
    requires i < j < |calls| && Recorded(window, calls, i) && Recorded(window, calls, j)
    requires SameDid(calls, i, j) && calls[i].block.nonce == calls[j].block.nonce
    requires calls[i].block.timestampMs == calls[j].block.timestampMs
    ensures i < m < j && Recorded(window, calls, m) && calls[m].now > calls[j].now
  {
    m := EvictedBetween(window, calls, i, j);
    RecordedIsAboveCutoff(window, calls, j);
    LaterCutoff(window, calls[j].now, calls[m].now);
  }

  /**
   * Replay safety over every run: no two accepted calls share DID, nonce and
   * timestamp, and if they share DID and nonce, the first timestamp lies more
   * than the window before the second clock reading.
   */
  lemma NoReplay(window: int64, calls: seq<Call>, i: nat, j: nat)
    requires window < MAX_INT64 && ClockOrdered(window, calls)
    requires i < j < |calls| && Accepted(window, calls, i) && Accepted(window, calls, j)
    requires SameDid(calls, i, j) && calls[i].block.nonce == calls[j].block.nonce
    ensures NoRepeat(window, calls[i], calls[j])
  {
    RecordedTwice(window, calls, i, j);
  }

  /** What two calls for one DID and nonce must satisfy, the first one's stamp having left the window. */
  ghost predicate NoRepeat(window: int64, first: Call, second: Call) {
    && first.block.timestampMs != second.block.timestampMs
    && first.block.timestampMs * NS_PER_MS < second.now - window
  }

  /** Replay safety of a window: what NoReplay states, for all runs. */
  ghost predicate ReplaySafe(window: int64) {
    forall calls: seq<Call>, i: nat, j: nat ::
      && i < j < |calls| && ClockOrdered(window, calls)
      && Accepted(window, calls, i) && Accepted(window, calls, j)
      && SameDid(calls, i, j) && calls[i].block.nonce == calls[j].block.nonce ==>
        NoRepeat(window, calls[i], calls[j])
  }

  /** A call that passes everything but the cache. */
  ghost predicate Genuine(window: int64, c: Call) {
    Precheck(window, c.now, c.block).None? && SignatureVerdict(c).None?
  }

  /** A genuine call, a second one whose clock evicts the first one's entry, then the first one's block again. */
  lemma EvictedThenAccepted(window: int64, calls: seq<Call>)
    requires |calls| == 3 && forall i :: 0 <= i < 3 ==> Genuine(window, calls[i])
    requires calls[0].block == calls[2].block && SameDid(calls, 0, 1)
    requires calls[0].block.nonce != calls[1].block.nonce
    requires calls[0].block.timestampMs < Cutoff(window, calls[1].now)
    ensures forall i :: 0 <= i < 3 ==> Accepted(window, calls, i)
  {
    hide Precheck, SignatureVerdict, Cutoff, DidOf;
    var did := DidOf(calls[0].block);
    assert Genuine(window, calls[0]) && Genuine(window, calls[1]) && Genuine(window, calls[2]);
    assert CacheAfter(window, calls, 0) == map[];
    assert Accepted(window, calls, 0);
    assert Lookup(CacheAfter(window, calls, 1), did).Keys == {calls[0].block.nonce};
    assert Accepted(window, calls, 1);
    assert calls[0].block.nonce !in Lookup(CacheAfter(window, calls, 2), did);
  }

  /**
   * Under the largest window a stamp older than it still passes the check, is evicted
   * by the next call and is accepted again, whatever the clock.
   */
  lemma LargestWindowReplays(calls: seq<Call>)
    requires |calls| == 3 && calls[0] == calls[2] && calls[1].now == calls[0].now
    requires forall i :: 0 <= i < 3 ==> Genuine(MAX_INT64, calls[i])
    requires SameDid(calls, 0, 1) && calls[0].block.nonce != calls[1].block.nonce
    requires calls[0].block.timestampMs < Cutoff(MAX_INT64, calls[0].now)
    ensures ClockOrdered(MAX_INT64, calls)
    ensures forall i :: 0 <= i < 3 ==> Accepted(MAX_INT64, calls, i)
  {
    hide Genuine, Accepted, Reaches, DidOf, Cutoff;
    EvictedThenAccepted(MAX_INT64, calls);
  }

  /** A genuine call: a did:web VMID whose lookup and signature check succeed. */
  function SampleCall(now: int, nonce: Nonce, stamp: int64): Call {
    Call(now, SignatureBlock(SIG_ALG_ED25519, WebPrefix() + [1, HASH, 1], nonce, stamp, []), [],
         (_, _) => Ok([]), (_, _, _) => true)
  }

  lemma SampleCallIsGenuine(window: int64, now: int, nonce: Nonce, stamp: int64)
    requires Skew(now, stamp) <= window
    ensures Genuine(window, SampleCall(now, nonce, stamp))
    ensures DidOf(SampleCall(now, nonce, stamp).block) == WebPrefix() + [1]
  {
    hide Skew;
    var vmid := SampleCall(now, nonce, stamp).block.vmid;
    assert HASH !in WebPrefix() + [1];
    CutAtFirst(WebPrefix() + [1], [1]);
    assert vmid == WebPrefix() + [1] + [HASH] + [1];
    assert WebPrefix()[4] != DidKeyPrefix()[4];
  }

  function NonceOf(b: byte): Nonce {
    seq(16, _ => b)
  }

  /** In 2027, with stamps of the year 1732. */
  lemma LargestWindowIsUnsafe()
    ensures !ReplaySafe(MAX_INT64)
  {
    var now, stamp := 1_800_000_000_000_000_000, -7_500_000_000_000;
    var a, b := SampleCall(now, NonceOf(0), stamp), SampleCall(now, NonceOf(1), stamp);
    SampleCallIsGenuine(MAX_INT64, now, NonceOf(0), stamp);
    SampleCallIsGenuine(MAX_INT64, now, NonceOf(1), stamp);
    assert NonceOf(0)[0] != NonceOf(1)[0];
    hide ClockOrdered, Accepted, Genuine, DidOf;
    LargestWindowReplays([a, b, a]);
    assert SameDid([a, b, a], 0, 2);
  }

  /** Replay safety holds for every window a Duration can hold except the largest. */
  lemma ReplaySafeExactly(window: int64)
    ensures ReplaySafe(window) <==> window < MAX_INT64
  {
    if window < MAX_INT64 {
      hide ClockOrdered, Accepted, NoRepeat;
      forall calls: seq<Call>, i: nat, j: nat |
        && i < j < |calls| && ClockOrdered(window, calls)
        && Accepted(window, calls, i) && Accepted(window, calls, j)
        && SameDid(calls, i, j) && calls[i].block.nonce == calls[j].block.nonce
        ensures NoRepeat(window, calls[i], calls[j])
      {
        NoReplay(window, calls, i, j);
      }
    } else {
      LargestWindowIsUnsafe();
    }
  }

  /**
   * Clock order is needed: under the default window, a call whose later clock reading
   * reaches the cache first lets the very same call be accepted twice.
   */
  lemma InversionReplays()
    ensures var first, late := SampleCall(0, NonceOf(0), 0), SampleCall(301_000_000_000, NonceOf(1), 301_000);
            && (forall i :: 0 <= i < 3 ==> Accepted(REPLAY_WINDOW, [first, late, first], i))
            && !ClockOrdered(REPLAY_WINDOW, [first, late, first])
  {
    var first, late := SampleCall(0, NonceOf(0), 0), SampleCall(301_000_000_000, NonceOf(1), 301_000);
    SampleCallIsGenuine(REPLAY_WINDOW, 0, NonceOf(0), 0);
    SampleCallIsGenuine(REPLAY_WINDOW, 301_000_000_000, NonceOf(1), 301_000);
    assert NonceOf(0)[0] != NonceOf(1)[0];
    hide DidOf, SignatureVerdict, Precheck;
    var calls := [first, late, first];
    EvictedThenAccepted(REPLAY_WINDOW, calls);
    assert Reaches(REPLAY_WINDOW, calls, 1) && Reaches(REPLAY_WINDOW, calls, 2);
  }

  // What a refused call leaves behind

  /** The cache after a call does not depend on the message, the signature or the key behind it. */
  lemma CacheIgnoresSignature(cache: Cache, window: int64, a: Call, b: Call)
    requires a.now == b.now && a.block == b.block.(signature := a.block.signature)
    ensures Step(cache, window, a).0 == Step(cache, window, b).0
  {
  }

  /**
   * A refused forgery uses up the nonce it copies: it is rejected and yet recorded,
   * and the genuine call it was made from, accepted without it, is then refused.
   */
  lemma ForgeryBurnsNonce(cache: Cache, window: int64, honest: Call, forged: Call)
    requires Step(cache, window, honest).1.None?
    requires forged.block == honest.block.(signature := forged.block.signature)
    requires Precheck(window, forged.now, forged.block).None? && SignatureVerdict(forged).Some?
    ensures Step(cache, window, forged).1 == SignatureVerdict(forged)
    ensures Step(Step(cache, window, forged).0, window, honest).1 == Some(ReplayedNonce)
  {
    hide Skew, Cut, SignatureVerdict, Cutoff;
  }

  /** Some recording call among the first `k` still holds this DID's nonce, accepted or not. */
  ghost predicate Burned(window: int64, calls: seq<Call>, k: nat, did: Bytes, nonce: Nonce)
    requires k <= |calls|
  {
    exists i :: 0 <= i < k && Retained(window, calls, k, i)
      && DidOf(calls[i].block) == did && calls[i].block.nonce == nonce
  }

  lemma BurnedIsCached(window: int64, calls: seq<Call>, k: nat, did: Bytes, nonce: Nonce)
    requires k <= |calls|
    ensures nonce in Lookup(CacheAfter(window, calls, k), did) <==> Burned(window, calls, k, did, nonce)
  {
    hide Retained, DidOf, CacheAfter, Lookup;
    var nonces := Lookup(CacheAfter(window, calls, k), did);
    if nonce in nonces {
      CacheHoldsRetained(window, calls, k, did, nonce, nonces[nonce]);
    }
    if Burned(window, calls, k, did, nonce) {
      var i :| 0 <= i < k && Retained(window, calls, k, i)
        && DidOf(calls[i].block) == did && calls[i].block.nonce == nonce;
      CacheHoldsRetained(window, calls, k, did, nonce, calls[i].block.timestampMs);
    }
  }

  /** After any run, a genuine call is refused exactly when its nonce is burned for its DID. */
  lemma GenuineRefusedExactly(window: int64, calls: seq<Call>, k: nat, c: Call)
    requires k <= |calls| && Genuine(window, c)
    ensures Step(CacheAfter(window, calls, k), window, c).1 ==
            if Burned(window, calls, k, DidOf(c.block), c.block.nonce) then Some(ReplayedNonce) else None
  {
    hide Precheck, SignatureVerdict, Burned, DidOf, CacheAfter, Cutoff;
    BurnedIsCached(window, calls, k, DidOf(c.block), c.block.nonce);
  }

  /**
   * When the timestamp check passes. Inside the range of a Duration it means what
   * it says; a stamp 2^63 ns or more ahead of the clock passes whatever the
   * window, and one too far behind passes only under the largest window.
   */
  predicate InWindow(window: int64, now: int, stamp: int64) {
    var d := now - stamp * 1_000_000;
    (0 - window <= d <= window) || d <= MIN_INT64 || (d > MAX_INT64 && window == MAX_INT64)
  }

  lemma WindowCheckExactly(window: int64, now: int, stamp: int64)
    ensures Skew(now, stamp) <= window <==> InWindow(window, now, stamp)
  {
  }

  /** A stamp 292 years ahead of the clock passes the default window. */
  lemma FarFutureStampPasses()
    ensures Skew(0, 9_223_372_036_855) <= REPLAY_WINDOW
    ensures 9_223_372_036_855 * NS_PER_MS - 0 > REPLAY_WINDOW
  {
  }
}
