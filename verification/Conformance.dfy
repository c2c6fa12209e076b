/** Published byte strings that pin the layouts down. */
module Conformance {
  import opened Base
  import opened Numerals
  import opened Varint
  import opened Frames
  import opened Capabilities
  import opened SignatureBlocks
  import opened HelloCodec
  import opened Budgets
  import Base58

  /** The sample encodings of appendix A.1 of RFC 9000, one per length and a non-minimal form. */
  lemma VarintSamples()
    ensures EncodeVarint(37) == [0x25]
    ensures EncodeVarint(15_293) == [0x7b, 0xbd]
    ensures EncodeVarint(494_878_333) == [0x9d, 0x7f, 0x3e, 0x7d]
    ensures ReadVarint([0x40, 0x25]) == Ok(Parsed(37, 2))
  {
    assert BigEndian(494_878_333, 4) == [0x1d, 0x7f, 0x3e, 0x7d];
    assert [0x40 % 0x40] + [0x40, 0x25][1..2] == [0, 0x25];
    assert [0, 0x25][..1] == [0];
    ValueOfDigit(0, 0x100);
  }

  lemma LongVarintSample()
    ensures EncodeVarint(151_288_809_941_952_652) == [0xc2, 0x19, 0x7c, 0x5e, 0xff, 0x14, 0xe8, 0x8c]
  {
    assert BigEndian(151_288_809_941_952_652, 8) == [0x02, 0x19, 0x7c, 0x5e, 0xff, 0x14, 0xe8, 0x8c];
  }

  /** INVOKE on operation 42 with payload "hi". */
  lemma InvokeFrameSample()
    ensures EncodeFrame(Frame(FRAME_INVOKE, 0, 42, Ascii("hi"))) == [0x03, 0x00, 0x2a, 0x02, 0x68, 0x69]
  {
    assert Ascii("hi") == [0x68, 0x69];
  }

  lemma BudgetVarints()
    ensures EncodeVarint(1000) == [0x43, 0xe8] && EncodeVarint(5000) == [0x53, 0x88]
    ensures EncodeVarint(2) == [0x02] && EncodeVarint(3) == [0x03]
  {
  }

  /** 1000 tokens, 5000 micro-USD. */
  lemma BudgetSample()
    ensures EncodeBudget(Budget(Some(1000), Some(5000), Ascii("USD"), None))
         == [0x03] + [0x01, 0x02, 0x43, 0xe8] + [0x02, 0x02, 0x53, 0x88] + [0x03, 0x03, 0x55, 0x53, 0x44]
  {
    hide EncodeVarint, EncodeEntry, EncodeList, CanonicalEntries, Ascii;
    var t, c, u := Entry(TOKENS, [0x43, 0xe8]), Entry(COST, [0x53, 0x88]), Entry(CURRENCY, [0x55, 0x53, 0x44]);
    CanonicalSample(t, c, u);
    ThreeEntries(t, c, u);
    SampleEntries();
    BudgetVarints();
  }

  lemma CanonicalSample(t: Entry, c: Entry, u: Entry)
    requires t == Entry(0x01, [0x43, 0xe8]) && c == Entry(0x02, [0x53, 0x88]) && u == Entry(0x03, [0x55, 0x53, 0x44])
    ensures CanonicalEntries(Budget(Some(1000), Some(5000), Ascii("USD"), None)) == [t, c, u]
  {
    assert Ascii("USD") == [0x55, 0x53, 0x44];
    BudgetVarints();
    hide EncodeVarint, Ascii;
  }

  lemma SampleEntries()
    ensures EncodeEntry(Entry(TOKENS, [0x43, 0xe8])) == [0x01, 0x02, 0x43, 0xe8]
    ensures EncodeEntry(Entry(COST, [0x53, 0x88])) == [0x02, 0x02, 0x53, 0x88]
    ensures EncodeEntry(Entry(CURRENCY, [0x55, 0x53, 0x44])) == [0x03, 0x03, 0x55, 0x53, 0x44]
  {
  }

  lemma ThreeEntries(a: Entry, b: Entry, c: Entry)
    requires EntriesEncodable([a, b, c])
    ensures |a.value| <= MAX_VARINT && |b.value| <= MAX_VARINT && |c.value| <= MAX_VARINT
    ensures EncodeList([a, b, c]) == EncodeEntry(a) + EncodeEntry(b) + EncodeEntry(c)
  {
    var es := [a, b, c];
    assert es[0] == a && es[1] == b && es[2] == c;
    hide EncodeEntry;
    assert es[1..] == [b, c] && [b, c][1..] == [c];
    OneEntry(c);
  }

  /** A deadline at the end of 2026. */
  lemma DeadlineSample()
    ensures EncodeBudget(Budget(None, None, [], Some(1_798_761_599_999)))
         == [0x01, 0x04, 0x08, 0x00, 0x00, 0x01, 0xa2, 0xce, 0x8b, 0xd3, 0xff]
  {
    DeadlineBytes();
    hide EncodeVarint, BigEndian;
    var e := Entry(DEADLINE, [0x00, 0x00, 0x01, 0xa2, 0xce, 0x8b, 0xd3, 0xff]);
    assert CanonicalEntries(Budget(None, None, [], Some(1_798_761_599_999))) == [e];
    OneEntry(e);
    hide CanonicalEntries, EncodeList;
  }

  lemma OneEntry(e: Entry)
    requires |e.value| <= MAX_VARINT
    ensures EncodeList([e]) == EncodeEntry(e)
  {
    hide EncodeEntry;
    assert [e][1..] == [];
  }

  lemma DeadlineBytes()
    ensures BigEndian(1_798_761_599_999, 8) == [0x00, 0x00, 0x01, 0xa2, 0xce, 0x8b, 0xd3, 0xff]
    ensures EncodeVarint(1) == [0x01] && EncodeVarint(8) == [0x08]
  {
  }

  /** A HELLO from "node1" with one required capability. */
  lemma HelloSample()
    ensures EncodeHello(Hello(Version(0, 1), Ascii("node1"), [Capability(Ascii("core.streaming"), 1, true)]))
         == [0x00, 0x01, 0x05] + Ascii("node1") + [0x01, 0x0e] + Ascii("core.streaming") + [0x01, 0x01]
  {
    hide Ascii;
    var c := Capability(Ascii("core.streaming"), 1, true);
    OneCapability(c);
  }

  lemma OneCapability(c: Capability)
    requires CapEncodable(c)
    ensures EncodeCaps([c]) == EncodeCap(c)
  {
    hide EncodeCap;
    assert [c][1..] == [];
  }

  /** The DID, VMID, nonce and HELLO of the published signed vector. */
  function SampleDid(): Bytes {
    Ascii("did:key:z6MkqWxM23zvnFMz6oZnWnPGF9jdp4g3JLK2TcJzPGevVDBY")
  }

  function SampleVmid(): Bytes {
    SampleDid() + Ascii("#z6MkqWxM23zvnFMz6oZnWnPGF9jdp4g3JLK2TcJzPGevVDBY")
  }

  function SampleInner(): Bytes {
    [0x00, 0x02, 0x38] + SampleDid() + [0x01, 0x15] + Ascii("aire.did-method.key/1") + [0x01, 0x01]
  }

  function SampleCovered(): Bytes {
    [0x01, 0x40, 0x69] + SampleVmid() + seq(16, i => i) + [0x00, 0x00, 0x01, 0x9e, 0xcd, 0xba, 0x50, 0x00]
  }

  lemma SampleHelloBytes()
    ensures EncodeHello(Hello(Version(0, 2), SampleDid(), [Capability(Ascii("aire.did-method.key/1"), 1, true)]))
         == SampleInner()
  {
    assert |SampleDid()| == 56;
    hide Ascii, SampleDid;
    OneCapability(Capability(Ascii("aire.did-method.key/1"), 1, true));
  }

  lemma SampleCoveredBytes(sb: SignatureBlock)
    requires sb.algorithm == 0x01 && sb.vmid == SampleVmid() && sb.nonce == seq(16, i => i)
    requires sb.timestampMs == 1_781_568_000_000
    ensures |sb.vmid| <= MAX_VARINT && MetaBytes(sb) == SampleCovered()
  {
    assert BigEndian(1_781_568_000_000, 8) == [0x00, 0x00, 0x01, 0x9e, 0xcd, 0xba, 0x50, 0x00];
    assert |SampleVmid()| == 105;
    assert EncodeVarint(105) == [0x40, 0x69];
    hide Ascii, SampleVmid, BigEndian, EncodeVarint;
  }

  /** The published signed HELLO: the message its signature covers, and the whole frame around any 64-byte signature. */
  lemma SignedHelloSample(sb: SignatureBlock)
    requires sb.algorithm == 0x01 && sb.vmid == SampleVmid() && sb.nonce == seq(16, i => i)
    requires sb.timestampMs == 1_781_568_000_000 && |sb.signature| == 64
    ensures |sb.vmid| <= MAX_VARINT
    ensures SignedMessage(FRAME_HELLO, SampleInner(), sb) == Ascii("AIRE-SIG-v1") + [0x00, 0x01] + SampleInner() + SampleCovered()
    ensures EncodeFrame(Frame(FRAME_HELLO, 0, 0, SampleInner() + EncodeBlock(sb)))
         == [0x01, 0x00, 0x00, 0x41, 0x1a] + SampleInner() + SampleCovered() + [0x40, 0x40] + sb.signature
  {
    hide Ascii, SampleInner, SampleCovered, SampleVmid, MetaBytes, EncodeVarint;
    SampleCoveredBytes(sb);
    SampleSizes();
    SampleBlock(sb);
    var f := Frame(FRAME_HELLO, 0, 0, SampleInner() + EncodeBlock(sb));
    assert EncodeFrame(f) == [0x01, 0x00] + [0x00] + [0x41, 0x1a] + f.payload;
    hide EncodeBlock, EncodeFrame;
  }

  lemma SampleBlock(sb: SignatureBlock)
    requires |sb.vmid| <= MAX_VARINT && |sb.signature| == 64
    ensures EncodeBlock(sb) == MetaBytes(sb) + [0x40, 0x40] + sb.signature
  {
    hide MetaBytes;
  }

  lemma SampleSizes()
    ensures |SampleInner()| == 84 && |SampleCovered()| == 132
    ensures EncodeVarint(64) == [0x40, 0x40] && EncodeVarint(282) == [0x41, 0x1a] && EncodeVarint(0) == [0x00]
  {
    hide Ascii;
  }

  /** The prefix of every signed HELLO message. */
  lemma DomainSeparatorSample()
    ensures DomainSeparator() + [FRAME_HELLO]
         == [0x41, 0x49, 0x52, 0x45, 0x2d, 0x53, 0x49, 0x47, 0x2d, 0x76, 0x31, 0x00, 0x01]
  {
  }

  /** base58btc of 0x61 is "2g". */
  lemma Base58Sample()
    ensures Base58.Encode([0x61]) == [0x32, 0x67]
  {
    ValueOfDigit(0x61, 0x100);
    assert Digits(0x61, 58) == [1, 39];
    var ds := Recode([0x61], 0x100, 58);
    assert ds == [1, 39];
    assert Base58.Alphabet()[1] == 0x32 && Base58.Alphabet()[39] == 0x67;
    assert Base58.Chars(ds)[0] == Base58.Alphabet()[ds[0]] && Base58.Chars(ds)[1] == Base58.Alphabet()[ds[1]];
  }

  /** base58btc of 0xFF behind a zero byte is "15Q". */
  lemma Base58LeadingZeroSample()
    ensures Base58.Encode([0x00, 0xff]) == [0x31, 0x35, 0x51]
  {
    assert [0x00, 0xff][..1] == [0x00];
    ValueOfDigit(0x00, 0x100);
    assert Digits(0xff, 58) == [4, 23];
    var ds := Recode([0x00, 0xff], 0x100, 58);
    assert ds == [0, 4, 23];
    assert Base58.Alphabet()[0] == 0x31 && Base58.Alphabet()[4] == 0x35 && Base58.Alphabet()[23] == 0x51;
    assert Base58.Chars(ds)[0] == Base58.Alphabet()[ds[0]] && Base58.Chars(ds)[1] == Base58.Alphabet()[ds[1]]
      && Base58.Chars(ds)[2] == Base58.Alphabet()[ds[2]];
  }
}
