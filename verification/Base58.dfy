/** base58btc with the Bitcoin alphabet. */
module Base58 {
  import opened Base
  import opened Numerals

  /** The characters `first` to `last` in byte order. */
  function Run(first: char, last: char): (b: Bytes)
    requires first <= last <= 'z'
    ensures |b| == last as int - first as int + 1
    ensures forall i :: 0 <= i < |b| ==> b[i] == first as int + i
  {
    seq(last as int - first as int + 1, i requires 0 <= i <= last as int - first as int => first as int + i)
  }

  /** Digits and letters without 0, I, O and l. */
  function Alphabet(): Bytes {
    Run('1', '9') + Run('A', 'H') + Run('J', 'N') + Run('P', 'Z') + Run('a', 'k') + Run('m', 'z')
  }

  predicate OverAlphabet(s: Bytes) {
    forall i :: 0 <= i < |s| ==> s[i] in Alphabet()
  }

  lemma AlphabetAscends()
    ensures |Alphabet()| == 58 && Alphabet()[0] == '1' as int
    ensures forall i, j :: 0 <= i < j < 58 ==> Alphabet()[i] < Alphabet()[j]
    ensures forall c :: c in Alphabet() ==> c != '#' as int
  {
  }

  /** The 58 characters in order. */
  lemma AlphabetIs()
    ensures Alphabet() == Ascii("123456789") + Ascii("ABCDEFGH") + Ascii("JKLMN") + Ascii("PQRSTUVWXYZ") +
                          Ascii("abcdefghijk") + Ascii("mnopqrstuvwxyz")
  {
    RunIs('1', '9', "123456789");
    RunIs('A', 'H', "ABCDEFGH");
    RunIs('J', 'N', "JKLMN");
    RunIs('P', 'Z', "PQRSTUVWXYZ");
    RunIs('a', 'k', "abcdefghijk");
    RunIs('m', 'z', "mnopqrstuvwxyz");
    hide Ascii, Run;
  }

  lemma RunIs(first: char, last: char, s: string)
    requires first <= last <= 'z' && |s| == last as int - first as int + 1
    requires forall i :: 0 <= i < |s| ==> s[i] as int == first as int + i
    ensures Run(first, last) == Ascii(s)
  {
  }

  function Chars(ds: seq<nat>): (s: Bytes)
    requires IsNumeral(ds, 58)
    ensures |s| == |ds|
  {
    AlphabetAscends();
    seq(|ds|, i requires 0 <= i < |ds| => Alphabet()[ds[i]])
  }

  function Indices(s: Bytes): (ds: seq<nat>)
    requires OverAlphabet(s)
    ensures |ds| == |s| && IsNumeral(ds, 58)
  {
    AlphabetAscends();
    seq(|s|, i requires 0 <= i < |s| => IndexByte(Alphabet(), s[i]))
  }

  /** What base58btcEncode returns, as a change of base that keeps leading zeros. */
  function Encode(data: Bytes): (s: Bytes) {
    Chars(Recode(data, 0x100, 58))
  }

  function Decode(s: Bytes): Result<Bytes> {
    if OverAlphabet(s) then Ok(Recode(Indices(s), 58, 0x100)) else Err(BadMultibase)
  }

  lemma CharsOver(ds: seq<nat>)
    requires IsNumeral(ds, 58)
    ensures OverAlphabet(Chars(ds)) && Indices(Chars(ds)) == ds
  {
    AlphabetAscends();
    var s := Chars(ds);
    forall i | 0 <= i < |s|
      ensures s[i] in Alphabet() && IndexByte(Alphabet(), s[i]) == ds[i]
    {
      assert s[i] == Alphabet()[ds[i]];
    }
  }

  lemma CharsOfIndices(s: Bytes)
    requires OverAlphabet(s)
    ensures Chars(Indices(s)) == s
  {
    AlphabetAscends();
  }

  /** Every byte string, empty or with leading zeros, survives encode then decode. */
  lemma DecodeEncoded(data: Bytes)
    ensures OverAlphabet(Encode(data))
    ensures Decode(Encode(data)) == Ok(data)
  {
    CharsOver(Recode(data, 0x100, 58));
    RecodeInverse(data, 0x100, 58);
  }

  /** Every string over the alphabet is the encoding of what it decodes to; no other string decodes. */
  lemma EncodeDecoded(s: Bytes)
    ensures Decode(s).Ok? <==> OverAlphabet(s)
    ensures Decode(s).Ok? ==> Encode(Decode(s).value) == s
  {
    if OverAlphabet(s) {
      RecodeInverse(Indices(s), 58, 0x100);
      CharsOfIndices(s);
    }
  }

  /**
   * The encoding of a byte string is the one string over the alphabet that spells the
   * same number and has as many leading ones as the bytes have leading zeros.
   */
  lemma EncodeExactly(data: Bytes, s: Bytes)
    ensures s == Encode(data) <==>
            && OverAlphabet(s) && Value(Indices(s), 58) == Value(data, 0x100)
            && exists k: nat :: Leads(s, '1' as int, k) && Leads(data, 0, k)
  {
    hide Chars, Indices;
    DecodeEncoded(data);
    if s == Encode(data) {
      CharsOver(Recode(data, 0x100, 58));
      var k := LeadingZeros(data);
      RecodedValue(data, 0x100, 58);
      OnesLead(s, k);
      assert Leads(data, 0, k);
    }
    if OverAlphabet(s) && Value(Indices(s), 58) == Value(data, 0x100) {
      forall k: nat | Leads(s, '1' as int, k) && Leads(data, 0, k)
        ensures s == Encode(data)
      {
        LeadingOnes(s, k);
        assert k == LeadingZeros(data);
        assert Recode(Indices(s), 58, 0x100) == Recode(data, 0x100, 0x100);
        SameBase(data);
        EncodeDecoded(s);
      }
    }
  }

  /** Exactly the first `k` bytes are `c`, or all of them if there are no more. */
  predicate Leads(s: Bytes, c: byte, k: nat) {
    k <= |s| && (forall i :: 0 <= i < k ==> s[i] == c) && (k < |s| ==> s[k] != c)
  }

  lemma OnesLead(s: Bytes, k: nat)
    requires OverAlphabet(s) && LeadingZeros(Indices(s)) == k
    ensures Leads(s, '1' as int, k)
  {
    hide Alphabet;
    AlphabetAscends();
    assert forall j :: 0 <= j < |s| ==> (Indices(s)[j] == 0 <==> s[j] == '1' as int);
  }

  /** Recoding into the same base changes nothing. */
  lemma SameBase(data: Bytes)
    ensures Recode(data, 0x100, 0x100) == data
  {
    var k := LeadingZeros(data);
    var body := data[k..];
    assert data == Zeros(k) + body;
    ValueOfZeros(k, 0x100);
    ValueOfConcat(Zeros(k), body, 0x100);
    DigitsOfValue(body, 0x100);
  }

  /** Encodings of non-empty data are non-empty, and none holds a '#'. */
  lemma EncodedShape(data: Bytes)
    requires data != []
    ensures Encode(data) != [] && '#' as int !in Encode(data)
  {
    hide Alphabet, Chars, Recode, Indices;
    DecodeEncoded(data);
    DecodeEncoded([]);
    AlphabetAscends();
    EmptyEncoding();
  }

  lemma EmptyEncoding()
    ensures Encode([]) == []
  {
    assert |Recode([], 0x100, 58)| == 0;
  }

  function Reversed(s: Bytes): (r: Bytes)
    ensures |r| == |s|
  {
    seq(|s|, i requires 0 <= i < |s| => s[|s| - 1 - i])
  }

  method ReverseInPlace(out: array<byte>)
    modifies out
    ensures out[..] == Reversed(old(out[..]))
  {
    var i, j := 0, out.Length - 1;
    while i < j
      invariant 0 <= i && i + j == out.Length - 1 && i <= j + 1
      invariant forall k :: 0 <= k < out.Length ==>
        out[k] == if i <= k <= j then old(out[k]) else old(out[out.Length - 1 - k])
    {
      out[i], out[j] := out[j], out[i];
      i, j := i + 1, j - 1;
    }
  }

  lemma CharsOfConcat(a: seq<nat>, b: seq<nat>)
    requires IsNumeral(a, 58) && IsNumeral(b, 58)
    ensures IsNumeral(a + b, 58) && Chars(a + b) == Chars(a) + Chars(b)
  {
    hide Alphabet;
  }

  lemma ReversedSnoc(out: Bytes, c: byte)
    ensures Reversed(out + [c]) == [c] + Reversed(out)
  {
  }

  lemma CharOfDigit(d: nat)
    requires d < 58
    ensures |Alphabet()| == 58 && Chars([d]) == [Alphabet()[d]]
  {
    AlphabetAscends();
    hide Alphabet;
  }

  lemma DigitsSplit(n: nat)
    requires n > 0
    ensures n % 58 < 58 && Digits(n, 58) == Digits(n / 58, 58) + [n % 58]
  {
  }

  lemma PushDigit(n: nat, out: Bytes)
    requires n > 0 && n % 58 < |Alphabet()|
    ensures Chars(Digits(n, 58)) + Reversed(out) == Chars(Digits(n / 58, 58)) + Reversed(out + [Alphabet()[n % 58]])
  {
    hide Alphabet, Chars, Reversed, Digits;
    var rest, d := Digits(n / 58, 58), n % 58;
    DigitsSplit(n);
    CharOfDigit(d);
    CharsOfConcat(rest, [d]);
    ReversedSnoc(out, Alphabet()[d]);
    assert Chars(rest) + [Alphabet()[d]] + Reversed(out) == Chars(rest) + ([Alphabet()[d]] + Reversed(out));
  }

  lemma PadAndReverse(data: Bytes, digits: Bytes, k: nat)
    requires k == LeadingZeros(data)
    requires Reversed(digits) == Chars(Digits(Value(data, 0x100), 58))
    ensures Reversed(digits + seq(k, _ => '1' as int)) == Encode(data)
  {
    hide Alphabet;
    AlphabetAscends();
    var ones: Bytes := seq(k, _ => '1' as int);
    assert Reversed(digits + ones) == ones + Reversed(digits);
    assert Chars(Zeros(k)) == ones;
    assert Chars(Recode(data, 0x100, 58)) == Chars(Zeros(k)) + Chars(Digits(Value(data, 0x100), 58));
  }

  lemma PushIndex(s: Bytes, i: nat)
    requires i < |s| && OverAlphabet(s[..i]) && s[i] in Alphabet()
    ensures OverAlphabet(s[..i + 1])
    ensures Value(Indices(s[..i + 1]), 58) == Value(Indices(s[..i]), 58) * 58 + IndexByte(Alphabet(), s[i])
  {
    hide Alphabet;
    assert s[..i + 1] == s[..i] + [s[i]];
    assert Indices(s[..i + 1])[..i] == Indices(s[..i]);
  }

  /** The character for zero stands exactly where the digit is zero. */
  lemma LeadingOnes(s: Bytes, lead: nat)
    requires OverAlphabet(s) && lead <= |s|
    requires forall j :: 0 <= j < lead ==> s[j] == '1' as int
    requires lead < |s| ==> s[lead] != '1' as int
    ensures lead == LeadingZeros(Indices(s))
  {
    hide Alphabet;
    AlphabetAscends();
    assert forall j :: 0 <= j < |s| ==> (Indices(s)[j] == 0 <==> s[j] == '1' as int);
  }

  method Base58Encode(data: Bytes) returns (s: Bytes)
    ensures s == Encode(data)
  {
    hide Alphabet, Encode, Chars;
    AlphabetAscends();
    var n := Value(data, 0x100);
    ghost var all := Chars(Digits(n, 58));
    var out: Bytes := [];
    while n > 0
      invariant Chars(Digits(n, 58)) + Reversed(out) == all
    {
      QuotientShrinks(n, 58);
      PushDigit(n, out);
      var rem := n % 58;
      out := out + [Alphabet()[rem]];
      n := n / 58;
    }
    ghost var digits := out;
    assert Chars(Digits(0, 58)) + Reversed(digits) == Reversed(digits);
    var k := 0;
    while k < |data| && data[k] == 0
      invariant k <= |data| && forall i :: 0 <= i < k ==> data[i] == 0
      invariant out == digits + seq(k, _ => '1' as int)
    {
      out := out + ['1' as int];
      k := k + 1;
    }
    PadAndReverse(data, digits, k);
    var buf := new byte[|out|](i requires 0 <= i < |out| => out[i]);
    assert buf[..] == out;
    ReverseInPlace(buf);
    s := buf[..];
  }

  method Base58Decode(s: Bytes) returns (r: Result<Bytes>)
    ensures r == Decode(s)
  {
    hide Alphabet, Indices, Digits, Value;
    AlphabetAscends();
    NoDigits(Indices(s[..0]), 58);
    var n := 0;
    var i := 0;
    while i < |s|
      invariant i <= |s| && OverAlphabet(s[..i])
      invariant n == Value(Indices(s[..i]), 58)
    {
      var idx := IndexByte(Alphabet(), s[i]);
      if idx < 0 {
        return Err(BadMultibase);
      }
      PushIndex(s, i);
      n := n * 58 + idx;
      i := i + 1;
    }
    assert s[..|s|] == s;
    var out: Bytes := Digits(n, 0x100);
    var lead := 0;
    while lead < |s| && s[lead] == '1' as int
      invariant lead <= |s| && forall j :: 0 <= j < lead ==> s[j] == '1' as int
    {
      lead := lead + 1;
    }
    LeadingOnes(s, lead);
    assert lead == 0 ==> Zeros(lead) + out == out;
    if lead > 0 {
      out := Zeros(lead) + out;
    }
    return Ok(out);
  }
}
