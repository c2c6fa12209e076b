/** BUDGET payloads: encode then decode, and re-encoding what was decoded. */
module BudgetRoundTrip {
  import opened Base
  import opened Varint
  import opened SignatureBlocks
  import opened Budgets

  lemma ReadEncodedEntry(e: Entry, tail: Bytes)
    requires |e.value| <= MAX_VARINT
    ensures ReadEntry(EncodeEntry(e) + tail) == Ok(Parsed(e, |EncodeEntry(e)|))
  {
    hide ReadVarint, EncodeVarint;
    var data := EncodeEntry(e) + tail;
    var len := EncodeVarint(|e.value|);
    assert data[1..] == len + (e.value + tail);
    ReadEncodedVarint(|e.value|, e.value + tail);
    var pos := 1 + |len|;
    assert data[pos..pos + |e.value|] == e.value;
  }

  lemma {:induction false} ParseEncodedList(es: seq<Entry>)
    requires EntriesEncodable(es)
    ensures ParseEntries(EncodeList(es), |es|) == Some(es)
  {
    hide EncodeEntry, ReadEntry;
    if es != [] {
      var rest := EncodeList(es[1..]);
      ReadEncodedEntry(es[0], rest);
      assert EncodeList(es)[|EncodeEntry(es[0])|..] == rest;
      ParseEncodedList(es[1..]);
      assert [es[0]] + es[1..] == es;
    }
  }

  /** Every encoded entry list is read back as itself. */
  lemma EntriesOfEncoded(es: seq<Entry>)
    requires EntriesEncodable(es) && |es| <= MAX_VARINT
    ensures Entries(EncodeEntries(es)) == Some(es)
  {
    hide ReadVarint, EncodeVarint, EncodeList, ParseEntries;
    ReadEncodedVarint(|es|, EncodeList(es));
    assert EncodeEntries(es)[|EncodeVarint(|es|)|..] == EncodeList(es);
    ParseEncodedList(es);
  }

  /** A budget survives encode then decode exactly when it is non-empty and its currency absent or three bytes. */
  lemma DecodeEncodedBudget(b: Budget)
    requires BudgetEncodable(b)
    ensures DecodeBudget(EncodeBudget(b)) == Ok(b) <==> b != EMPTY && (b.currency == [] || |b.currency| == 3)
  {
    hide EncodeEntries, Entries, DecodeBudget;
    var es := CanonicalEntries(b);
    EntriesOfEncoded(es);
    BudgetMeaning(EncodeBudget(b));
    if b.currency == [] || |b.currency| == 3 {
      CanonicalMeaning(b);
      assert b == EMPTY <==> es == [];
    } else {
      assert Entry(CURRENCY, b.currency) in CurrencyEntries(b.currency);
      assert Entry(CURRENCY, b.currency) in es && !WellTyped(Entry(CURRENCY, b.currency));
    }
  }

  lemma {:induction false} FindConcat(es: seq<Entry>, fs: seq<Entry>, fid: byte)
    ensures Find(es + fs, fid) == if Find(es, fid).Some? then Find(es, fid) else Find(fs, fid)
  {
    if es == [] {
      assert es + fs == fs;
    } else {
      FindConcat(es[1..], fs, fid);
      assert (es + fs)[1..] == es[1..] + fs;
    }
  }

  /** Where a field is looked up in the canonical list. */
  lemma CanonicalFind(b: Budget, fid: byte)
    requires BudgetEncodable(b)
    ensures Find(CanonicalEntries(b), fid) ==
            if fid == TOKENS then Find(NumberEntries(TOKENS, b.tokens), fid)
            else if fid == COST then Find(NumberEntries(COST, b.cost), fid)
            else if fid == CURRENCY then Find(CurrencyEntries(b.currency), fid)
            else if fid == DEADLINE then Find(DeadlineEntries(b.deadlineMs), fid)
            else None
  {
    hide EncodeVarint, BigEndian;
    var t, c, u := NumberEntries(TOKENS, b.tokens), NumberEntries(COST, b.cost), CurrencyEntries(b.currency);
    FindConcat(t + c + u, DeadlineEntries(b.deadlineMs), fid);
    FindConcat(t + c, u, fid);
    FindConcat(t, c, fid);
  }

  lemma CanonicalDistinct(b: Budget)
    requires BudgetEncodable(b)
    ensures Distinct(CanonicalEntries(b))
  {
    hide EncodeVarint, BigEndian;
    var t, c, u := NumberEntries(TOKENS, b.tokens), NumberEntries(COST, b.cost), CurrencyEntries(b.currency);
    var tc: seq<Entry> := t + c;
    assert Distinct(tc) && forall i :: 0 <= i < |tc| ==> tc[i].fid <= COST;
    var tcu: seq<Entry> := tc + u;
    assert Distinct(tcu) && forall i :: 0 <= i < |tcu| ==> tcu[i].fid <= CURRENCY;
  }

  lemma CanonicalTyped(b: Budget, e: Entry)
    requires BudgetEncodable(b) && (b.currency == [] || |b.currency| == 3) && e in CanonicalEntries(b)
    ensures WellTyped(e)
  {
    hide EncodeVarint, ReadVarint, BigEndian;
    if b.tokens.Some? {
      ReadBack(b.tokens.value);
    }
    if b.cost.Some? {
      ReadBack(b.cost.value);
    }
  }

  lemma ReadBack(v: nat)
    requires v <= MAX_VARINT
    ensures ReadVarint(EncodeVarint(v)) == Ok(Parsed(v, |EncodeVarint(v)|))
  {
    ReadEncodedVarint(v, []);
    assert EncodeVarint(v) + [] == EncodeVarint(v);
  }

  lemma CanonicalMeaning(b: Budget)
    requires BudgetEncodable(b) && (b.currency == [] || |b.currency| == 3)
    ensures Acceptable(CanonicalEntries(b)) && Overlay(EMPTY, CanonicalEntries(b)) == b
  {
    hide EncodeVarint, ReadVarint, Timestamp, BigEndian, CanonicalEntries, WellTyped, Distinct;
    var es := CanonicalEntries(b);
    CanonicalDistinct(b);
    forall e | e in es
      ensures WellTyped(e)
    {
      CanonicalTyped(b, e);
    }
    CanonicalFind(b, TOKENS);
    CanonicalFind(b, COST);
    CanonicalFind(b, CURRENCY);
    CanonicalFind(b, DEADLINE);
    if b.tokens.Some? {
      ReadBack(b.tokens.value);
    }
    if b.cost.Some? {
      ReadBack(b.cost.value);
    }
    if b.deadlineMs.Some? {
      TimestampOfBytes(b.deadlineMs.value);
    }
  }

  // Normalisation

  function EntrySize(e: Entry): nat
    requires |e.value| <= MAX_VARINT
  {
    1 + |EncodeVarint(|e.value|)| + |e.value|
  }

  function TotalSize(es: seq<Entry>): nat
    requires EntriesEncodable(es)
  {
    if es == [] then 0 else EntrySize(es[0]) + TotalSize(es[1..])
  }

  /** The size of the entry for a field, or zero without one. */
  function FieldSize(es: seq<Entry>, fid: byte): nat
    requires EntriesEncodable(es)
  {
    if es == [] then 0 else if es[0].fid == fid then EntrySize(es[0]) else FieldSize(es[1..], fid)
  }

  lemma VarintSizeMonotone(x: nat, y: nat)
    requires x <= y <= MAX_VARINT
    ensures |EncodeVarint(x)| <= |EncodeVarint(y)|
  {
  }

  lemma {:induction false} ParsedSize(data: Bytes, count: nat)
    requires ParseEntries(data, count).Some?
    ensures TotalSize(ParseEntries(data, count).value) <= |data|
    decreases count
  {
    if count > 0 {
      var e := ReadEntry(data).value;
      EncodingIsShortest(data[1..]);
      hide EncodeVarint, ReadVarint;
      ParsedSize(data[e.size..], count - 1);
      assert ParseEntries(data, count).value[1..] == ParseEntries(data[e.size..], count - 1).value;
    }
  }

  lemma {:induction false} EncodedListSize(es: seq<Entry>)
    requires EntriesEncodable(es)
    ensures |EncodeList(es)| == TotalSize(es)
  {
    hide EncodeVarint;
    if es != [] {
      EncodedListSize(es[1..]);
    }
  }

  lemma {:induction false} FieldsFit(es: seq<Entry>)
    requires EntriesEncodable(es)
    ensures FieldSize(es, TOKENS) + FieldSize(es, COST) + FieldSize(es, CURRENCY) + FieldSize(es, DEADLINE)
         <= TotalSize(es)
  {
    hide EntrySize;
    if es != [] {
      FieldsFit(es[1..]);
    }
  }

  lemma {:induction false} FieldSizeIs(es: seq<Entry>, fid: byte)
    requires EntriesEncodable(es)
    ensures match Find(es, fid)
            case None => FieldSize(es, fid) == 0
            case Some(v) => |v| <= MAX_VARINT && FieldSize(es, fid) == EntrySize(Entry(fid, v))
  {
    hide EntrySize;
    if es != [] {
      FieldSizeIs(es[1..], fid);
    }
  }

  /** Each canonical entry is no larger than the entry the value was read from. */
  lemma CanonicalFits(es: seq<Entry>, b: Budget)
    requires EntriesEncodable(es) && Acceptable(es) && b == Overlay(EMPTY, es) && BudgetEncodable(b)
    ensures TotalSize(CanonicalEntries(b))
         <= FieldSize(es, TOKENS) + FieldSize(es, COST) + FieldSize(es, CURRENCY) + FieldSize(es, DEADLINE)
  {
    hide EncodeVarint, ReadVarint, Timestamp, BigEndian;
    NumberFits(es, TOKENS);
    NumberFits(es, COST);
    FieldSizeIs(es, CURRENCY);
    FieldSizeIs(es, DEADLINE);
    FindHas(es, CURRENCY);
    FindHas(es, DEADLINE);
    CanonicalSize(b);
    SingleSize(NumberEntries(TOKENS, b.tokens));
    SingleSize(NumberEntries(COST, b.cost));
    SingleSize(CurrencyEntries(b.currency));
    SingleSize(DeadlineEntries(b.deadlineMs));
  }

  lemma NumberFits(es: seq<Entry>, fid: byte)
    requires EntriesEncodable(es) && Acceptable(es) && (fid == TOKENS || fid == COST)
    ensures match NumberField(Find(es, fid), None)
            case None => FieldSize(es, fid) == 0
            case Some(v) => v <= MAX_VARINT && EntrySize(Entry(fid, EncodeVarint(v))) <= FieldSize(es, fid)
  {
    hide EncodeVarint, ReadVarint;
    FieldSizeIs(es, fid);
    FindHas(es, fid);
    match Find(es, fid) {
      case None =>
      case Some(v) =>
        assert WellTyped(Entry(fid, v));
        EncodingIsShortest(v);
        VarintSizeMonotone(|EncodeVarint(ReadVarint(v).value.value)|, |v|);
    }
  }

  lemma CanonicalSize(b: Budget)
    requires BudgetEncodable(b)
    ensures TotalSize(CanonicalEntries(b))
         == TotalSize(NumberEntries(TOKENS, b.tokens)) + TotalSize(NumberEntries(COST, b.cost))
          + TotalSize(CurrencyEntries(b.currency)) + TotalSize(DeadlineEntries(b.deadlineMs))
  {
    hide EntrySize, NumberEntries, CurrencyEntries, DeadlineEntries;
    var t, c, u := NumberEntries(TOKENS, b.tokens), NumberEntries(COST, b.cost), CurrencyEntries(b.currency);
    TotalSizeConcat(t + c + u, DeadlineEntries(b.deadlineMs));
    TotalSizeConcat(t + c, u);
    TotalSizeConcat(t, c);
  }

  lemma SingleSize(es: seq<Entry>)
    requires EntriesEncodable(es) && |es| <= 1
    ensures TotalSize(es) == if es == [] then 0 else EntrySize(es[0])
  {
    hide EntrySize;
    if es != [] {
      assert es[1..] == [];
    }
  }

  lemma {:induction false} TotalSizeConcat(es: seq<Entry>, fs: seq<Entry>)
    requires EntriesEncodable(es) && EntriesEncodable(fs)
    ensures TotalSize(es + fs) == TotalSize(es) + TotalSize(fs)
  {
    hide EntrySize;
    if es == [] {
      assert es + fs == fs;
    } else {
      TotalSizeConcat(es[1..], fs);
      assert (es + fs)[1..] == es[1..] + fs;
    }
  }

  /**
   * Normalisation: re-encoding what any accepted payload with a known field
   * decoded to gives a payload that is no longer and decodes to the same budget.
   */
  lemma Normalisation(payload: Bytes)
    requires DecodeBudget(payload).Ok? && DecodeBudget(payload).value != EMPTY
    ensures var b := DecodeBudget(payload).value;
            && BudgetEncodable(b)
            && |EncodeBudget(b)| <= |payload|
            && DecodeBudget(EncodeBudget(b)) == Ok(b)
  {
    hide DecodeBudget, ParseEntries, Overlay, EncodeList, ReadVarint, TotalSize, Acceptable;
    var b := DecodeBudget(payload).value;
    BudgetMeaning(payload);
    var num, es := ReadVarint(payload).value, Entries(payload).value;
    OverlayEncodable(es);
    ParsedSize(payload[num.size..], num.value);
    FieldsFit(es);
    CanonicalFits(es, b);
    EncodedListSize(CanonicalEntries(b));
    DecodeEncodedBudget(b);
  }

  lemma OverlayEncodable(es: seq<Entry>)
    requires Acceptable(es)
    ensures BudgetEncodable(Overlay(EMPTY, es))
    ensures Overlay(EMPTY, es).currency == [] || |Overlay(EMPTY, es).currency| == 3
  {
    hide ReadVarint, Timestamp;
    FindHas(es, CURRENCY);
  }
}
