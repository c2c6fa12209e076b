/** Capability advertisements and the negotiation of the active set. */
module Capabilities {
  import opened Base

  datatype Capability = Capability(name: Bytes, version: nat, required: bool)

  predicate DistinctNames(caps: seq<Capability>) {
    forall i, j :: 0 <= i < j < |caps| ==> caps[i].name != caps[j].name
  }

  predicate Advertises(caps: seq<Capability>, name: Bytes) {
    exists c :: c in caps && c.name == name
  }

  /** Every name `caps` requires is advertised by `other`. */
  predicate RequirementsMet(caps: seq<Capability>, other: seq<Capability>) {
    forall c :: c in caps && c.required ==> Advertises(other, c.name)
  }

  /** The name-to-capability index of a list; a later duplicate would overwrite. */
  function Index(caps: seq<Capability>): map<Bytes, Capability> {
    if caps == [] then map[]
    else
      var last := caps[|caps| - 1];
      Index(caps[..|caps| - 1])[last.name := last]
  }

  function Lower(a: nat, b: nat): (m: nat)
    ensures m <= a && m <= b && (m == a || m == b)
  {
    if b < a then b else a
  }

  /** Local capabilities the peer also has, in local order, at the lower minor. */
  function Active(local: seq<Capability>, peer: map<Bytes, Capability>): seq<Capability> {
    if local == [] then []
    else
      var lc := local[|local| - 1];
      Active(local[..|local| - 1], peer) +
      if lc.name in peer then [Capability(lc.name, Lower(lc.version, peer[lc.name].version), false)] else []
  }

  /** The error class of a negotiation, or none. */
  function Verdict(local: seq<Capability>, peer: seq<Capability>): Option<Error> {
    if !DistinctNames(local) || !DistinctNames(peer) then Some(MalformedHello)
    else if !RequirementsMet(local, peer) || !RequirementsMet(peer, local) then Some(MissingRequiredCapability)
    else None
  }

  function Negotiate(local: seq<Capability>, peer: seq<Capability>): Result<seq<Capability>> {
    match Verdict(local, peer)
    case Some(e) => Err(e)
    case None => Ok(Active(local, Index(peer)))
  }

  /** The names both lists hold, each with the lower of the two minors. */
  ghost function Common(a: seq<Capability>, b: seq<Capability>): iset<(Bytes, nat)> {
    iset x, y | x in a && y in b && x.name == y.name :: (x.name, Lower(x.version, y.version))
  }

  /** An active set seen as its name-to-minor pairs. */
  ghost function Pairs(active: seq<Capability>): iset<(Bytes, nat)> {
    iset c | c in active :: (c.name, c.version)
  }

  lemma {:induction false} IndexHolds(caps: seq<Capability>)
    ensures forall n :: n in Index(caps) <==> Advertises(caps, n)
    ensures forall n :: n in Index(caps) ==> Index(caps)[n] in caps && Index(caps)[n].name == n
    ensures DistinctNames(caps) ==> forall c :: c in caps ==> c.name in Index(caps) && Index(caps)[c.name] == c
  {
    if caps != [] {
      var init, last := caps[..|caps| - 1], caps[|caps| - 1];
      IndexHolds(init);
      assert caps == init + [last];
      assert forall c :: c in caps <==> c in init || c == last;
    }
  }

  ghost function PairOf(lc: Capability, idx: map<Bytes, Capability>): iset<(Bytes, nat)> {
    if lc.name in idx then iset{(lc.name, Lower(lc.version, idx[lc.name].version))} else iset{}
  }

  lemma CommonWithLast(init: seq<Capability>, lc: Capability, peer: seq<Capability>)
    requires DistinctNames(peer)
    ensures Common(init + [lc], peer) == Common(init, peer) + PairOf(lc, Index(peer))
  {
    hide Index;
    IndexHolds(peer);
    var idx := Index(peer);
    assert forall c :: c in init + [lc] <==> c in init || c == lc;
    assert lc.name in idx ==> idx[lc.name] in peer;
    assert forall y :: y in peer && y.name == lc.name ==> y == idx[lc.name];
  }

  lemma {:induction false} ActivePairs(local: seq<Capability>, peer: seq<Capability>)
    requires DistinctNames(peer)
    ensures Pairs(Active(local, Index(peer))) == Common(local, peer)
  {
    hide Index;
    if local != [] {
      var init, lc := local[..|local| - 1], local[|local| - 1];
      ActivePairs(init, peer);
      assert local == init + [lc];
      CommonWithLast(init, lc, peer);
      var idx := Index(peer);
      assert Pairs(Active(local, idx)) == Pairs(Active(init, idx)) + PairOf(lc, idx) by {
        hide Common;
      }
    }
  }

  lemma {:induction false} ActiveNames(local: seq<Capability>, peer: map<Bytes, Capability>)
    requires DistinctNames(local)
    ensures forall c :: c in Active(local, peer) ==> Advertises(local, c.name)
    ensures DistinctNames(Active(local, peer))
  {
    if local != [] {
      var init, lc := local[..|local| - 1], local[|local| - 1];
      ActiveNames(init, peer);
      assert local == init + [lc];
      assert forall c :: c in local <==> c in init || c == lc;
      assert !Advertises(init, lc.name) by {
        assert forall c :: c in init ==> c.name != lc.name;
      }
    }
  }

  /** Names come in the same order in both lists. */
  ghost predicate InOrderOf(active: seq<Capability>, local: seq<Capability>) {
    forall i, j, x, y |
      && 0 <= i < j < |active| && 0 <= x < |local| && 0 <= y < |local|
      && active[i].name == local[x].name && active[j].name == local[y].name :: x < y
  }

  /** A name advertised by a prefix stands inside that prefix. */
  lemma StandsInPrefix(local: seq<Capability>, n: nat, x: nat)
    requires DistinctNames(local) && x < |local| && n <= |local| && Advertises(local[..n], local[x].name)
    ensures x < n
  {
    var c :| c in local[..n] && c.name == local[x].name;
    var y :| 0 <= y < n && local[y] == c;
  }

  lemma OrderWithLast(before: seq<Capability>, last: seq<Capability>, local: seq<Capability>, n: nat)
    requires DistinctNames(local) && n == |local| - 1
    requires InOrderOf(before, local[..n]) && forall c :: c in before ==> Advertises(local[..n], c.name)
    requires |last| <= 1 && forall c :: c in last ==> c.name == local[n].name
    ensures InOrderOf(before + last, local)
  {
    var all := before + last;
    forall i, j, x, y |
      && 0 <= i < j < |all| && 0 <= x < |local| && 0 <= y < |local|
      && all[i].name == local[x].name && all[j].name == local[y].name
      ensures x < y
    {
      hide Advertises, DistinctNames;
      assert before[i] in before;
      StandsInPrefix(local, n, x);
      if j < |before| {
        assert before[j] in before;
        StandsInPrefix(local, n, y);
        assert local[..n][x] == local[x] && local[..n][y] == local[y];
      } else {
        assert last[0] in last;
        NameIsUnique(local, n, y);
      }
    }
  }

  lemma NameIsUnique(local: seq<Capability>, n: nat, y: nat)
    requires DistinctNames(local) && n < |local| && y < |local| && local[y].name == local[n].name
    ensures y == n
  {
  }

  lemma {:induction false} ActiveInOrder(local: seq<Capability>, peer: map<Bytes, Capability>)
    requires DistinctNames(local)
    ensures InOrderOf(Active(local, peer), local)
  {
    if local != [] {
      var n := |local| - 1;
      ActiveInOrder(local[..n], peer);
      ActiveNames(local[..n], peer);
      hide InOrderOf, Advertises, DistinctNames;
      OrderWithLast(Active(local[..n], peer), Active(local, peer)[|Active(local[..n], peer)|..], local, n);
      assert Active(local, peer) ==
        Active(local[..n], peer) + Active(local, peer)[|Active(local[..n], peer)|..];
    }
  }

  /** Two entries of the list share a name. */
  ghost predicate Repeats(caps: seq<Capability>) {
    exists i, j :: 0 <= i < j < |caps| && caps[i].name == caps[j].name
  }

  /** Some entry is required and no entry of the other list has its name. */
  ghost predicate Lacks(caps: seq<Capability>, other: seq<Capability>) {
    exists i :: 0 <= i < |caps| && caps[i].required && forall j :: 0 <= j < |other| ==> other[j].name != caps[i].name
  }

  lemma LacksExactly(caps: seq<Capability>, other: seq<Capability>)
    ensures Lacks(caps, other) <==> !RequirementsMet(caps, other)
  {
    forall name
      ensures Advertises(other, name) <==> exists j :: 0 <= j < |other| && other[j].name == name
    {
    }
    if !RequirementsMet(caps, other) {
      var c :| c in caps && c.required && !Advertises(other, c.name);
      var i :| 0 <= i < |caps| && caps[i] == c;
    }
  }

  /** When a negotiation fails, and how. */
  lemma NegotiationVerdict(local: seq<Capability>, peer: seq<Capability>)
    ensures Negotiate(local, peer) == Err(MalformedHello) <==> Repeats(local) || Repeats(peer)
    ensures Negotiate(local, peer) == Err(MissingRequiredCapability) <==>
            !Repeats(local) && !Repeats(peer) && (Lacks(local, peer) || Lacks(peer, local))
    ensures Negotiate(local, peer).Err? ==> Negotiate(local, peer).error in {MalformedHello, MissingRequiredCapability}
  {
    LacksExactly(local, peer);
    LacksExactly(peer, local);
    hide Lacks, RequirementsMet;
  }

  lemma {:induction false} ActiveOptional(local: seq<Capability>, peer: map<Bytes, Capability>)
    ensures forall c :: c in Active(local, peer) ==> !c.required
  {
    if local != [] {
      ActiveOptional(local[..|local| - 1], peer);
    }
  }

  /**
   * What a successful negotiation returns: exactly the common names at the lower
   * minor, each once, in the local order and none of them required.
   */
  lemma NegotiationResult(local: seq<Capability>, peer: seq<Capability>)
    requires Negotiate(local, peer).Ok?
    ensures Pairs(Negotiate(local, peer).value) == Common(local, peer)
    ensures DistinctNames(Negotiate(local, peer).value)
    ensures InOrderOf(Negotiate(local, peer).value, local)
    ensures forall c :: c in Negotiate(local, peer).value ==> !c.required
  {
    ActiveOptional(local, Index(peer));
    ActivePairs(local, peer);
    ActiveNames(local, Index(peer));
    ActiveInOrder(local, Index(peer));
  }

  /** Swapping the sides keeps success, the error class and the name-to-minor pairs. */
  lemma NegotiationSymmetric(a: seq<Capability>, b: seq<Capability>)
    ensures Negotiate(a, b).Ok? <==> Negotiate(b, a).Ok?
    ensures Negotiate(a, b).Err? ==> Negotiate(b, a) == Negotiate(a, b)
    ensures Negotiate(a, b).Ok? ==> Pairs(Negotiate(a, b).value) == Pairs(Negotiate(b, a).value)
  {
    if Negotiate(a, b).Ok? {
      NegotiationResult(a, b);
      NegotiationResult(b, a);
      assert Common(a, b) == Common(b, a);
    }
  }

  /** Appending a name not there keeps names distinct; appending one that is there does not. */
  lemma DistinctSoFar(caps: seq<Capability>, i: nat)
    requires i < |caps| && DistinctNames(caps[..i])
    ensures Advertises(caps[..i], caps[i].name) ==> !DistinctNames(caps)
    ensures !Advertises(caps[..i], caps[i].name) ==> DistinctNames(caps[..i + 1])
  {
    if Advertises(caps[..i], caps[i].name) {
      var d :| d in caps[..i] && d.name == caps[i].name;
      var j :| 0 <= j < i && caps[j] == d;
    } else {
      assert forall j :: 0 <= j < i ==> caps[..i][j] in caps[..i];
      assert caps[..i + 1] == caps[..i] + [caps[i]];
    }
  }

  method IndexCapabilities(caps: seq<Capability>) returns (r: Result<map<Bytes, Capability>>)
    ensures r == if DistinctNames(caps) then Ok(Index(caps)) else Err(MalformedHello)
  {
    hide DistinctNames, Advertises;
    var idx: map<Bytes, Capability> := map[];
    NoNames(caps[..0]);
    for i := 0 to |caps|
      invariant DistinctNames(caps[..i]) && idx == Index(caps[..i])
    {
      var c := caps[i];
      IndexHolds(caps[..i]);
      DistinctSoFar(caps, i);
      if c.name in idx {
        return Err(MalformedHello);
      }
      assert caps[..i + 1][..i] == caps[..i];
      idx := idx[c.name := c];
    }
    assert caps[..|caps|] == caps;
    return Ok(idx);
  }

  lemma NoNames(caps: seq<Capability>)
    requires |caps| == 0
    ensures DistinctNames(caps)
  {
  }

  /** Whether every name `caps` requires is in the other side's index. */
  method CheckRequired(caps: seq<Capability>, other: seq<Capability>, otherByName: map<Bytes, Capability>)
    returns (met: bool)
    requires otherByName == Index(other)
    ensures met == RequirementsMet(caps, other)
  {
    IndexHolds(other);
    for i := 0 to |caps|
      invariant RequirementsMet(caps[..i], other)
    {
      if caps[i].required && caps[i].name !in otherByName {
        assert caps[i] in caps;
        return false;
      }
      assert caps[..i + 1] == caps[..i] + [caps[i]];
    }
    assert caps[..|caps|] == caps;
    return true;
  }

  method NegotiateCapabilities(local: seq<Capability>, peer: seq<Capability>) returns (r: Result<seq<Capability>>)
    ensures r == Negotiate(local, peer)
  {
    var localByName := IndexCapabilities(local);
    if localByName.Err? {
      return Err(localByName.error);
    }
    var peerByName := IndexCapabilities(peer);
    if peerByName.Err? {
      return Err(peerByName.error);
    }
    var active: seq<Capability> := [];
    for i := 0 to |local|
      invariant active == Active(local[..i], peerByName.value)
    {
      var lc := local[i];
      assert local[..i + 1][..i] == local[..i];
      if lc.name in peerByName.value {
        var minor := lc.version;
        if peerByName.value[lc.name].version < minor {
          minor := peerByName.value[lc.name].version;
        }
        active := active + [Capability(lc.name, minor, false)];
      }
    }
    assert local[..|local|] == local;
    var met := CheckRequired(local, peer, peerByName.value);
    if met {
      met := CheckRequired(peer, local, localByName.value);
    }
    if !met {
      return Err(MissingRequiredCapability);
    }
    return Ok(active);
  }
}
