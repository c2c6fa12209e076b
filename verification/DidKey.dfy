/** Ed25519 multikeys, did:key identifiers and verification-method ids. */
module DidKey {
  import opened Base
  import opened Numerals
  import Base58

  const PUBLIC_KEY_SIZE: nat := 32
  const ED25519_MULTICODEC: Bytes := [0xED, 0x01]
  const HASH: byte := '#' as int

  function DidKeyPrefix(): Bytes {
    Ascii("did:key:")
  }

  function EncodeMultibase(pub: Bytes): Bytes {
    ['z' as int] + Base58.Encode(ED25519_MULTICODEC + pub)
  }

  function DecodeMultibase(s: Bytes): Result<Bytes> {
    if |s| < 2 || s[0] != 'z' as int then Err(BadMultibase)
    else
      var raw :- Base58.Decode(s[1..]);
      if |raw| < 2 || raw[0] != 0xED || raw[1] != 0x01 then Err(BadMultibase)
      else if |raw| - 2 != PUBLIC_KEY_SIZE then Err(BadMultibase)
      else Ok(raw[2..])
  }

  function MakeDidKey(pub: Bytes): Bytes {
    DidKeyPrefix() + EncodeMultibase(pub)
  }

  function ParseDidKey(did: Bytes): Result<Bytes> {
    if !HasPrefix(did, DidKeyPrefix()) then Err(BadMultibase)
    else DecodeMultibase(did[|DidKeyPrefix()|..])
  }

  /** `<did>#<multibase-id>`; slicing off the prefix panics on a string shorter than it. */
  function DidKeyVmid(did: Bytes): Bytes
    requires |did| >= |DidKeyPrefix()|
  {
    did + [HASH] + did[|DidKeyPrefix()|..]
  }

  /** strings.Cut at the first '#': the DID part and the fragment. */
  function Cut(vmid: Bytes): (parts: (Bytes, Bytes))
    ensures HASH !in parts.0
    ensures if HASH in vmid then vmid == parts.0 + [HASH] + parts.1 else parts == (vmid, [])
  {
    var i := IndexByte(vmid, HASH);
    if i < 0 then (vmid, []) else (vmid[..i], vmid[i + 1..])
  }

  lemma CutAtFirst(did: Bytes, fragment: Bytes)
    requires HASH !in did
    ensures Cut(did + [HASH] + fragment) == (did, fragment)
  {
    var vmid := did + [HASH] + fragment;
    assert vmid[|did|] == HASH;
    assert forall j :: 0 <= j < |did| ==> vmid[j] == did[j] != HASH;
    var i := IndexByte(vmid, HASH);
    assert i == |did|;
    assert vmid[..|did|] == did && vmid[|did| + 1..] == fragment;
  }

  lemma MultibaseShape(pub: Bytes)
    ensures |EncodeMultibase(pub)| >= 2
    ensures HASH !in EncodeMultibase(pub)
  {
    hide Base58.Encode;
    Base58.EncodedShape(ED25519_MULTICODEC + pub);
  }

  /** A multibase string yields a key exactly when it is that key's encoding. */
  lemma MultibaseCanonical(s: Bytes, key: Bytes)
    ensures DecodeMultibase(s) == Ok(key) <==> |key| == PUBLIC_KEY_SIZE && s == EncodeMultibase(key)
  {
    if DecodeMultibase(s) == Ok(key) {
      Base58.EncodeDecoded(s[1..]);
      var raw := Base58.Decode(s[1..]).value;
      assert raw == ED25519_MULTICODEC + key;
      assert s == ['z' as int] + s[1..];
    }
    if |key| == PUBLIC_KEY_SIZE && s == EncodeMultibase(key) {
      MultibaseShape(key);
      Base58.DecodeEncoded(ED25519_MULTICODEC + key);
      assert s[1..] == Base58.Encode(ED25519_MULTICODEC + key);
      assert (ED25519_MULTICODEC + key)[2..] == key;
    }
  }

  /** did:key strings are canonical: one string per key and no other string parses. */
  lemma DidKeyCanonical(s: Bytes, key: Bytes)
    ensures ParseDidKey(s) == Ok(key) <==> |key| == PUBLIC_KEY_SIZE && s == MakeDidKey(key)
  {
    hide EncodeMultibase, DecodeMultibase, Ascii;
    var rest := if HasPrefix(s, DidKeyPrefix()) then s[|DidKeyPrefix()|..] else [];
    MultibaseCanonical(rest, key);
    if ParseDidKey(s) == Ok(key) {
      assert s == DidKeyPrefix() + rest;
    } else if s == MakeDidKey(key) {
      assert rest == EncodeMultibase(key);
    }
  }

  /** Cutting the VMID of a did:key at the first '#' gives back the DID. */
  lemma CutDidKeyVmid(pub: Bytes)
    ensures HASH !in MakeDidKey(pub) && |MakeDidKey(pub)| >= |DidKeyPrefix()|
    ensures Cut(DidKeyVmid(MakeDidKey(pub))) == (MakeDidKey(pub), EncodeMultibase(pub))
  {
    MultibaseShape(pub);
    var did := MakeDidKey(pub);
    assert did[|DidKeyPrefix()|..] == EncodeMultibase(pub);
    CutAtFirst(did, EncodeMultibase(pub));
  }

  // What every did:key looks like

  lemma LargePowers()
    ensures Pow(58, 44) == 389790918707373377135528568990913592653094657612049369038476873218241589149696
    ensures Pow(58, 46) == 3364 * Pow(58, 44) && Pow(58, 47) == 195_112 * Pow(58, 44)
    ensures Pow(0x100, 32) == 0x1_00000000_00000000_00000000_00000000_00000000_00000000_00000000_00000000
  {
    assert Pow(58, 4) == 11_316_496 && Pow(58, 7) == 2_207_984_167_552;
    PowSum(58, 4, 7);
    PowSum(58, 11, 11);
    PowSum(58, 22, 22);
    assert Pow(58, 2) == 3364 && Pow(58, 3) == 195_112;
    PowSum(58, 44, 2);
    PowSum(58, 44, 3);
    assert Pow(0x100, 4) == 0x1_0000_0000;
    PowSum(0x100, 4, 4);
    PowSum(0x100, 8, 8);
    PowSum(0x100, 16, 16);
  }

  /** The number behind a multikey lies between two consecutive prefixes. */
  lemma MultikeyRange(pub: Bytes)
    requires |pub| == 32
    ensures 0xED01 * Pow(0x100, 32) <= Value([0xED, 0x01] + pub, 0x100) < 0xED02 * Pow(0x100, 32)
  {
    var head: Bytes := [0xED, 0x01];
    ValueOfConcat(head, pub, 0x100);
    ValueBound(pub, 0x100);
    assert head[..1] == [0xED];
    ValueOfDigit(0xED, 0x100);
    assert Value(head, 0x100) == 0xED01;
  }

  lemma MultikeyDigits(pub: Bytes)
    requires |pub| == 32
    ensures var ds := Digits(Value([0xED, 0x01] + pub, 0x100), 58);
            |ds| == 47 && ds[..3] == [5, 20, 43]
  {
    var n := Value([0xED, 0x01] + pub, 0x100);
    MultikeyRange(pub);
    LargePowers();
    hide Pow, Value, Digits;
    DigitCount(n, 58, 47);
    var ds := Digits(n, 58);
    ValueOfDigits(n, 58);
    LeadingDigits(ds, 58, 3, 18_023);
    FixedOfValue(ds[..3], 58);
    ThreeDigits();
  }

  lemma ThreeDigits()
    ensures Fixed(18_023, 58, 3) == [5, 20, 43]
  {
    assert Fixed(310, 58, 2) == [5, 20] by {
      assert Fixed(5, 58, 1) == Fixed(0, 58, 0) + [5];
    }
  }

  /** Every did:key of an Ed25519 key has 56 characters and starts with "did:key:z6Mk". */
  lemma DidKeyShape(pub: Bytes)
    requires |pub| == 32
    ensures |MakeDidKey(pub)| == 56 && Ascii("did:key:z6Mk") <= MakeDidKey(pub)
    ensures MakeDidKey(pub) == Ascii("did:key:z") + Base58.Encode([0xED, 0x01] + pub)
  {
    var data: Bytes := [0xED, 0x01] + pub;
    var s := Base58.Encode(data);
    var ds := Digits(Value(data, 0x100), 58);
    MultikeyDigits(pub);
    NoLeadingZero(data);
    hide Value, Digits, Recode, Ascii, Base58.Alphabet, Base58.Chars, Pow;
    CharsOfMultikey(ds);
    Prefixes();
    assert s[..3] == Ascii("6Mk");
    JoinPrefixes(MakeDidKey(pub), Ascii("did:key:"), Ascii("did:key:z"), s);
  }

  lemma JoinPrefixes(did: Bytes, prefix: Bytes, z: Bytes, s: Bytes)
    requires did == prefix + (['z' as int] + s) && z == prefix + ['z' as int] && |s| >= 3
    ensures did == z + s && z + s[..3] <= did
  {
    assert s == s[..3] + s[3..];
  }

  lemma NoLeadingZero(data: Bytes)
    requires data != [] && data[0] != 0
    ensures Recode(data, 0x100, 58) == Digits(Value(data, 0x100), 58)
  {
  }

  lemma CharsOfMultikey(ds: seq<nat>)
    requires IsNumeral(ds, 58) && |ds| == 47 && ds[..3] == [5, 20, 43]
    ensures Base58.Chars(ds)[..3] == Ascii("6Mk")
  {
    Base58.AlphabetAscends();
    assert Base58.Alphabet()[5] == '6' as int && Base58.Alphabet()[20] == 'M' as int && Base58.Alphabet()[43] == 'k' as int;
    hide Base58.Alphabet;
    assert ds[0] == ds[..3][0] && ds[1] == ds[..3][1] && ds[2] == ds[..3][2];
  }

  lemma Prefixes()
    ensures |Ascii("did:key:z")| == 9 && Ascii("did:key:z") == Ascii("did:key:") + ['z' as int]
    ensures Ascii("did:key:z6Mk") == Ascii("did:key:z") + Ascii("6Mk")
  {
  }
}
