/** The HELLO payload: version, node id and capability list, then an optional signature block. */
module HelloCodec {
  import opened Base
  import opened Varint
  import opened Frames
  import opened Capabilities
  import opened SignatureBlocks

  datatype Version = Version(major: nat, minor: nat)

  datatype Hello = Hello(version: Version, nodeId: Bytes, caps: seq<Capability>)

  predicate CapEncodable(c: Capability) {
    |c.name| <= MAX_VARINT && c.version <= MAX_VARINT
  }

  /** Numbers and lengths above MAX_VARINT make the encoder panic. */
  predicate HelloEncodable(h: Hello) {
    && h.version.major <= MAX_VARINT && h.version.minor <= MAX_VARINT
    && |h.nodeId| <= MAX_VARINT && |h.caps| <= MAX_VARINT
    && forall i :: 0 <= i < |h.caps| ==> CapEncodable(h.caps[i])
  }

  function EncodeCap(c: Capability): Bytes
    requires CapEncodable(c)
  {
    EncodeString(c.name) + EncodeVarint(c.version) + [if c.required then 0x01 else 0x00]
  }

  function EncodeCaps(caps: seq<Capability>): Bytes
    requires forall i :: 0 <= i < |caps| ==> CapEncodable(caps[i])
  {
    if caps == [] then [] else EncodeCap(caps[0]) + EncodeCaps(caps[1..])
  }

  function EncodeFields(h: Hello): Bytes
    requires HelloEncodable(h)
  {
    EncodeVarint(h.version.major) + EncodeVarint(h.version.minor) + EncodeString(h.nodeId) + EncodeVarint(|h.caps|)
  }

  function EncodeHello(h: Hello): Bytes
    requires HelloEncodable(h)
  {
    EncodeFields(h) + EncodeCaps(h.caps)
  }

  function DecodeCap(data: Bytes): (r: Result<Parsed<Capability>>)
    ensures r.Ok? ==> 3 <= r.value.size <= |data| && CapEncodable(r.value.value)
    ensures r.Err? ==> r.error == MalformedHello
  {
    var name :- ReadString(data).OrElse(MalformedHello);
    var version :- ReadVarint(data[name.size..]).OrElse(MalformedHello);
    var pos := name.size + version.size;
    if pos >= |data| || data[pos] > 0x01 then Err(MalformedHello)
    else Ok(Parsed(Capability(name.value, version.value, data[pos] == 0x01), pos + 1))
  }

  function DecodeCaps(data: Bytes, count: nat): (r: Result<Parsed<seq<Capability>>>)
    ensures r.Ok? ==> r.value.size <= |data| && |r.value.value| == count
    ensures r.Ok? ==> forall i :: 0 <= i < count ==> CapEncodable(r.value.value[i])
    ensures r.Err? ==> r.error == MalformedHello
    decreases count
  {
    if count == 0 then Ok(Parsed([], 0))
    else
      var first :- DecodeCap(data);
      var rest :- DecodeCaps(data[first.size..], count - 1);
      Ok(Parsed([first.value] + rest.value, first.size + rest.size))
  }

  /** The fields in front of the capability array, with the declared count. */
  function DecodeFields(data: Bytes): (r: Result<Parsed<(Version, Bytes, nat)>>)
    ensures r.Ok? ==> 0 < r.value.size <= |data|
    ensures r.Err? ==> r.error == MalformedHello
  {
    var major :- ReadVarint(data).OrElse(MalformedHello);
    var minor :- ReadVarint(data[major.size..]).OrElse(MalformedHello);
    var nodeId :- ReadString(data[major.size + minor.size..]).OrElse(MalformedHello);
    var p := major.size + minor.size + nodeId.size;
    var count :- ReadVarint(data[p..]).OrElse(MalformedHello);
    Ok(Parsed((Version(major.value, minor.value), nodeId.value, count.value), p + count.size))
  }

  /** decodeHelloPayloadV02; the trailing bytes are those past the parsed size. */
  function DecodeHello(data: Bytes): (r: Result<Parsed<Hello>>)
    ensures r.Ok? ==> 0 < r.value.size <= |data|
    ensures r.Err? ==> r.error == MalformedHello
  {
    var fields :- DecodeFields(data);
    var caps :- DecodeCaps(data[fields.size..], fields.value.2);
    Ok(Parsed(Hello(fields.value.0, fields.value.1, caps.value), fields.size + caps.size))
  }

  // Round trip

  lemma DecodeEncodedCap(c: Capability, tail: Bytes)
    requires CapEncodable(c)
    ensures DecodeCap(EncodeCap(c) + tail) == Ok(Parsed(c, |EncodeCap(c)|))
  {
    hide EncodeString, ReadString, EncodeVarint, ReadVarint;
    var name, version := EncodeString(c.name), EncodeVarint(c.version);
    var req: Bytes := [if c.required then 0x01 else 0x00];
    var data := EncodeCap(c) + tail;
    assert data == name + (version + req + tail);
    ReadEncodedString(c.name, version + req + tail);
    assert data[|name|..] == version + (req + tail);
    ReadEncodedVarint(c.version, req + tail);
    assert data[|name| + |version|] == req[0];
  }

  lemma {:induction false} DecodeEncodedCaps(caps: seq<Capability>, tail: Bytes)
    requires forall i :: 0 <= i < |caps| ==> CapEncodable(caps[i])
    ensures DecodeCaps(EncodeCaps(caps) + tail, |caps|) == Ok(Parsed(caps, |EncodeCaps(caps)|))
  {
    hide EncodeCap, DecodeCap;
    if caps != [] {
      var rest := EncodeCaps(caps[1..]);
      var data := EncodeCaps(caps) + tail;
      assert data == EncodeCap(caps[0]) + (rest + tail);
      DecodeEncodedCap(caps[0], rest + tail);
      assert data[|EncodeCap(caps[0])|..] == rest + tail;
      DecodeEncodedCaps(caps[1..], tail);
      assert [caps[0]] + caps[1..] == caps;
    }
  }

  lemma FourParts(a: Bytes, b: Bytes, c: Bytes, d: Bytes, tail: Bytes)
    ensures var data := a + b + c + d + tail;
            && data == a + (b + c + d + tail)
            && data[|a|..] == b + (c + d + tail)
            && data[|a| + |b|..] == c + (d + tail)
            && data[|a| + |b| + |c|..] == d + tail
  {
  }

  lemma DecodeEncodedFields(h: Hello, tail: Bytes)
    requires HelloEncodable(h)
    ensures DecodeFields(EncodeFields(h) + tail)
         == Ok(Parsed((h.version, h.nodeId, |h.caps|), |EncodeFields(h)|))
  {
    hide EncodeString, ReadString, EncodeVarint, ReadVarint;
    var major, minor := EncodeVarint(h.version.major), EncodeVarint(h.version.minor);
    var id, count := EncodeString(h.nodeId), EncodeVarint(|h.caps|);
    var data := EncodeFields(h) + tail;
    FourParts(major, minor, id, count, tail);
    ReadEncodedVarint(h.version.major, minor + id + count + tail);
    ReadEncodedVarint(h.version.minor, id + count + tail);
    ReadEncodedString(h.nodeId, count + tail);
    ReadEncodedVarint(|h.caps|, tail);
  }

  /** A HELLO decodes to itself and leaves exactly the bytes that follow it. */
  lemma DecodeEncodedHello(h: Hello, tail: Bytes)
    requires HelloEncodable(h)
    ensures DecodeHello(EncodeHello(h) + tail) == Ok(Parsed(h, |EncodeHello(h)|))
  {
    hide EncodeFields, DecodeFields, EncodeCaps, DecodeCaps;
    var data := EncodeHello(h) + tail;
    assert data == EncodeFields(h) + (EncodeCaps(h.caps) + tail);
    DecodeEncodedFields(h, EncodeCaps(h.caps) + tail);
    assert data[|EncodeFields(h)|..] == EncodeCaps(h.caps) + tail;
    DecodeEncodedCaps(h.caps, tail);
  }

  // Prefix stability

  lemma ReadStringInside(a: Bytes, b: Bytes, n: nat, from: nat)
    requires AgreeOn(a, b, n) && from <= n
    requires ReadString(a[from..]).Ok? && from + ReadString(a[from..]).value.size <= n
    ensures ReadString(b[from..]) == ReadString(a[from..])
  {
    SliceAgrees(a, b, n, from);
    NarrowAgreement(a[from..], b[from..], n - from, ReadString(a[from..]).value.size);
    ReadStringStable(a[from..], b[from..]);
  }

  lemma DecodeCapStable(a: Bytes, b: Bytes)
    requires DecodeCap(a).Ok? && AgreeOn(a, b, DecodeCap(a).value.size)
    ensures DecodeCap(b) == DecodeCap(a)
  {
    hide ReadString, ReadVarint;
    var n := DecodeCap(a).value.size;
    assert a[0..] == a && b[0..] == b;
    ReadStringInside(a, b, n, 0);
    ReadVarintInside(a, b, n, ReadString(a).value.size);
    assert a[n - 1] == a[..n][n - 1] == b[n - 1];
  }

  lemma {:induction false} DecodeCapsStable(a: Bytes, b: Bytes, count: nat)
    requires DecodeCaps(a, count).Ok? && AgreeOn(a, b, DecodeCaps(a, count).value.size)
    ensures DecodeCaps(b, count) == DecodeCaps(a, count)
    decreases count
  {
    hide DecodeCap;
    if count > 0 {
      var n := DecodeCaps(a, count).value.size;
      var first := DecodeCap(a).value;
      NarrowAgreement(a, b, n, first.size);
      DecodeCapStable(a, b);
      SliceAgrees(a, b, n, first.size);
      DecodeCapsStable(a[first.size..], b[first.size..], count - 1);
    }
  }

  lemma DecodeFieldsStable(a: Bytes, b: Bytes)
    requires DecodeFields(a).Ok? && AgreeOn(a, b, DecodeFields(a).value.size)
    ensures DecodeFields(b) == DecodeFields(a)
  {
    hide ReadString, ReadVarint;
    var n := DecodeFields(a).value.size;
    assert a[0..] == a && b[0..] == b;
    ReadVarintInside(a, b, n, 0);
    var p := ReadVarint(a).value.size;
    ReadVarintInside(a, b, n, p);
    var q := p + ReadVarint(a[p..]).value.size;
    ReadStringInside(a, b, n, q);
    ReadVarintInside(a, b, n, q + ReadString(a[q..]).value.size);
  }

  /** The HELLO decoder sees only the bytes it consumes. */
  lemma DecodeHelloStable(a: Bytes, b: Bytes)
    requires DecodeHello(a).Ok? && AgreeOn(a, b, DecodeHello(a).value.size)
    ensures DecodeHello(b) == DecodeHello(a)
  {
    hide DecodeFields, DecodeCaps;
    var n := DecodeHello(a).value.size;
    var fields := DecodeFields(a).value;
    NarrowAgreement(a, b, n, fields.size);
    DecodeFieldsStable(a, b);
    SliceAgrees(a, b, n, fields.size);
    DecodeCapsStable(a[fields.size..], b[fields.size..], fields.value.2);
  }

  // Normalisation

  lemma ReencodeCap(data: Bytes)
    requires DecodeCap(data).Ok?
    ensures var p := DecodeCap(data).value;
            && |EncodeCap(p.value)| <= p.size
            && (EncodeCap(p.value) == data[..p.size] <==> |EncodeCap(p.value)| == p.size)
  {
    hide EncodeString, ReadString, EncodeVarint, ReadVarint;
    var p, n := DecodeCap(data).value, ReadString(data).value.size;
    StringEncodingIsShortest(data);
    ReencodeStringExactly(data);
    EncodingIsShortest(data[n..]);
    ReencodeExactly(data[n..]);
    assert data[..p.size] == data[..n] + data[n..][..p.size - 1 - n] + [data[p.size - 1]];
  }

  lemma {:induction false} ReencodeCaps(data: Bytes, count: nat)
    requires DecodeCaps(data, count).Ok?
    ensures var p := DecodeCaps(data, count).value;
            && |EncodeCaps(p.value)| <= p.size
            && (EncodeCaps(p.value) == data[..p.size] <==> |EncodeCaps(p.value)| == p.size)
    decreases count
  {
    hide EncodeCap, DecodeCap;
    if count > 0 {
      var first := DecodeCap(data).value;
      ReencodeCap(data);
      ReencodeCaps(data[first.size..], count - 1);
      var all, rest := DecodeCaps(data, count).value, DecodeCaps(data[first.size..], count - 1).value;
      assert all.value[1..] == rest.value;
      assert data[..all.size] == data[..first.size] + data[first.size..][..rest.size];
    }
  }

  lemma ReencodeFields(data: Bytes, h: Hello)
    requires DecodeFields(data).Ok? && HelloEncodable(h)
    requires DecodeFields(data).value.value == (h.version, h.nodeId, |h.caps|)
    ensures var n := DecodeFields(data).value.size;
            && |EncodeFields(h)| <= n
            && (EncodeFields(h) == data[..n] <==> |EncodeFields(h)| == n)
  {
    hide EncodeString, ReadString, EncodeVarint, ReadVarint;
    var n := DecodeFields(data).value.size;
    var p := ReadVarint(data).value.size;
    var q := p + ReadVarint(data[p..]).value.size;
    var r := q + ReadString(data[q..]).value.size;
    EncodingIsShortest(data);
    ReencodeExactly(data);
    EncodingIsShortest(data[p..]);
    ReencodeExactly(data[p..]);
    StringEncodingIsShortest(data[q..]);
    ReencodeStringExactly(data[q..]);
    EncodingIsShortest(data[r..]);
    ReencodeExactly(data[r..]);
    assert data[..n] == data[..p] + data[p..][..q - p] + data[q..][..r - q] + data[r..][..n - r];
  }

  /**
   * Re-encoding a decoded HELLO is no longer than the bytes consumed, decodes to the
   * same HELLO, and gives back those very bytes exactly when it has their length.
   */
  lemma ReencodeHello(data: Bytes, tail: Bytes)
    requires DecodeHello(data).Ok?
    ensures var p := DecodeHello(data).value;
            && HelloEncodable(p.value)
            && |EncodeHello(p.value)| <= p.size
            && (EncodeHello(p.value) == data[..p.size] <==> |EncodeHello(p.value)| == p.size)
            && DecodeHello(EncodeHello(p.value) + tail) == Ok(Parsed(p.value, |EncodeHello(p.value)|))
  {
    hide EncodeCaps, DecodeCaps, EncodeFields, DecodeFields, HelloEncodable;
    var p := DecodeHello(data).value;
    var fields := DecodeFields(data).value;
    var caps := DecodeCaps(data[fields.size..], fields.value.2).value;
    DecodedEncodable(data);
    EncodableCaps(p.value);
    ReencodeFields(data, p.value);
    ReencodeCaps(data[fields.size..], fields.value.2);
    assert data[..p.size] == data[..fields.size] + data[fields.size..][..caps.size];
    JoinExactly(EncodeFields(p.value), EncodeCaps(caps.value), data[..fields.size], data[fields.size..][..caps.size]);
    hide DecodeHello;
    DecodeEncodedHello(p.value, tail);
  }

  lemma DecodedEncodable(data: Bytes)
    requires DecodeHello(data).Ok?
    ensures HelloEncodable(DecodeHello(data).value.value)
  {
    hide ReadVarint, ReadString, DecodeCaps;
  }

  lemma EncodableCaps(h: Hello)
    requires HelloEncodable(h)
    ensures forall i :: 0 <= i < |h.caps| ==> CapEncodable(h.caps[i])
  {
  }

  /** Two pieces that are each no longer than their originals, and equal to them at equal length. */
  lemma JoinExactly(a: Bytes, b: Bytes, x: Bytes, y: Bytes)
    requires |a| <= |x| && |b| <= |y|
    requires (a == x <==> |a| == |x|) && (b == y <==> |b| == |y|)
    ensures |a + b| <= |x + y| && (a + b == x + y <==> |a + b| == |x + y|)
  {
  }

  // What a signature covers

  /** A payload whose inner part and signature block both parse. */
  ghost predicate Signed(payload: Bytes) {
    && DecodeHello(payload).Ok?
    && DecodeBlock(payload[DecodeHello(payload).value.size..]).Ok?
  }

  ghost function InnerOf(payload: Bytes): Bytes
    requires Signed(payload)
  {
    payload[..DecodeHello(payload).value.size]
  }

  ghost function BlockOf(payload: Bytes): SignatureBlock
    requires Signed(payload)
  {
    DecodeBlock(payload[DecodeHello(payload).value.size..]).value.value
  }

  /**
   * The signed message binds its meaning: if two payloads rebuild the same signed
   * bytes, they agree on the frame type, version, node id, capability list,
   * algorithm, VMID, nonce and timestamp, and on the inner bytes themselves.
   */
  lemma SignedMessageBinds(p: Bytes, q: Bytes, ft: byte, gt: byte)
    requires Signed(p) && Signed(q)
    requires SignedMessage(ft, InnerOf(p), BlockOf(p)) == SignedMessage(gt, InnerOf(q), BlockOf(q))
    ensures ft == gt
    ensures InnerOf(p) == InnerOf(q)
    ensures DecodeHello(p).value.value == DecodeHello(q).value.value
    ensures BlockOf(p) == BlockOf(q).(signature := BlockOf(p).signature)
  {
    hide DecodeHello, DecodeBlock, MetaBytes, Ascii;
    var a, b := SignedMessage(ft, InnerOf(p), BlockOf(p)), SignedMessage(gt, InnerOf(q), BlockOf(q));
    var k := |DomainSeparator()|;
    assert a[k] == ft && b[k] == gt;
    var rest, rest' := InnerOf(p) + MetaBytes(BlockOf(p)), InnerOf(q) + MetaBytes(BlockOf(q));
    assert a[k + 1..] == rest && b[k + 1..] == rest';
    DecodeHelloStable(p, rest);
    DecodeHelloStable(q, rest');
    assert |InnerOf(p)| == |InnerOf(q)|;
    assert InnerOf(p) == rest[..|InnerOf(p)|] == InnerOf(q);
    assert MetaBytes(BlockOf(p)) == rest[|InnerOf(p)|..] == MetaBytes(BlockOf(q));
    MetaBytesInjective(BlockOf(p), BlockOf(q));
  }

  // The loops of the encoder and the decoder

  lemma {:induction false} EncodeCapsConcat(a: seq<Capability>, b: seq<Capability>)
    requires forall i :: 0 <= i < |a| ==> CapEncodable(a[i])
    requires forall i :: 0 <= i < |b| ==> CapEncodable(b[i])
    ensures EncodeCaps(a + b) == EncodeCaps(a) + EncodeCaps(b)
  {
    hide EncodeCap;
    if a == [] {
      assert a + b == b;
    } else {
      EncodeCapsConcat(a[1..], b);
      assert (a + b)[1..] == a[1..] + b;
    }
  }

  lemma EncodeCapsSnoc(caps: seq<Capability>, i: nat)
    requires i < |caps| && forall j :: 0 <= j < |caps| ==> CapEncodable(caps[j])
    ensures EncodeCaps(caps[..i + 1]) == EncodeCaps(caps[..i]) + EncodeCap(caps[i])
  {
    hide EncodeCap;
    assert caps[..i + 1] == caps[..i] + [caps[i]];
    EncodeCapsConcat(caps[..i], [caps[i]]);
    assert EncodeCaps([caps[i]]) == EncodeCap(caps[i]) + EncodeCaps([]);
  }

  lemma AppendedCap(buf: Bytes, c: Capability)
    requires CapEncodable(c)
    ensures buf + EncodeString(c.name) + EncodeVarint(c.version) + [if c.required then 0x01 else 0x00] == buf + EncodeCap(c)
  {
    hide EncodeString, EncodeVarint;
  }

  method EncodeHelloInner(version: Version, nodeId: Bytes, caps: seq<Capability>) returns (buf: Bytes)
    requires HelloEncodable(Hello(version, nodeId, caps))
    ensures buf == EncodeHello(Hello(version, nodeId, caps))
  {
    hide EncodeString, EncodeVarint;
    buf := EncodeVarint(version.major);
    buf := buf + EncodeVarint(version.minor);
    buf := buf + EncodeString(nodeId);
    buf := buf + EncodeVarint(|caps|);
    ghost var fields := buf;
    assert fields == EncodeFields(Hello(version, nodeId, caps)) && EncodeCaps(caps[..0]) == [];
    hide EncodeFields, EncodeCaps, EncodeCap;
    for i := 0 to |caps|
      invariant buf == fields + EncodeCaps(caps[..i])
    {
      ghost var before := buf;
      var c := caps[i];
      buf := buf + EncodeString(c.name);
      buf := buf + EncodeVarint(c.version);
      if c.required {
        buf := buf + [0x01];
      } else {
        buf := buf + [0x00];
      }
      AppendedCap(before, c);
      EncodeCapsSnoc(caps, i);
    }
    assert caps[..|caps|] == caps;
  }

  /** The outcome of a decoder that already holds `done` from `size` bytes. */
  ghost function After(done: seq<Capability>, size: nat, r: Result<Parsed<seq<Capability>>>): Result<Parsed<seq<Capability>>> {
    match r
    case Err(e) => Err(e)
    case Ok(p) => Ok(Parsed(done + p.value, size + p.size))
  }

  lemma DecodeOneMore(data: Bytes, done: seq<Capability>, size: nat, count: nat)
    requires count > 0 && DecodeCap(data).Ok?
    ensures var c := DecodeCap(data).value;
            After(done, size, DecodeCaps(data, count)) ==
            After(done + [c.value], size + c.size, DecodeCaps(data[c.size..], count - 1))
  {
    hide DecodeCap;
    var c := DecodeCap(data).value;
    var rest := DecodeCaps(data[c.size..], count - 1);
    if rest.Ok? {
      assert done + ([c.value] + rest.value.value) == done + [c.value] + rest.value.value;
    }
  }

  method DecodeHelloPayload(payload: Bytes) returns (r: Result<Parsed<Hello>>)
    ensures r == DecodeHello(payload)
  {
    hide ReadString, ReadVarint, DecodeCaps, DecodeCap;
    var fields := DecodeFields(payload);
    if fields.Err? {
      return Err(fields.error);
    }
    var start, count := fields.value.size, fields.value.value.2;
    var pos := start;
    var caps: seq<Capability> := [];
    ghost var whole := DecodeCaps(payload[start..], count);
    assert whole.Ok? ==> [] + whole.value.value == whole.value.value;
    var i := 0;
    while i < count
      invariant i <= count && start <= pos <= |payload|
      invariant whole == After(caps, pos - start, DecodeCaps(payload[pos..], count - i))
    {
      var c := DecodeCap(payload[pos..]);
      if c.Err? {
        NoFirstCap(payload[pos..], count - i);
        return Err(c.error);
      }
      DecodeOneMore(payload[pos..], caps, pos - start, count - i);
      assert payload[pos..][c.value.size..] == payload[pos + c.value.size..];
      pos := pos + c.value.size;
      caps := caps + [c.value.value];
      i := i + 1;
    }
    NoMoreCaps(payload[pos..]);
    assert caps + [] == caps;
    return Ok(Parsed(Hello(fields.value.value.0, fields.value.value.1, caps), pos));
  }

  lemma NoFirstCap(data: Bytes, count: nat)
    requires count > 0 && DecodeCap(data).Err?
    ensures DecodeCaps(data, count) == Err(DecodeCap(data).error)
  {
  }

  lemma NoMoreCaps(data: Bytes)
    ensures DecodeCaps(data, 0) == Ok(Parsed([], 0))
  {
  }
}
