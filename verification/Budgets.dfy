/** The BUDGET payload: a counted list of (field id, length, value) entries. */
module Budgets {
  import opened Base
  import opened Varint
  import opened SignatureBlocks

  const TOKENS: byte := 0x01
  const COST: byte := 0x02
  const CURRENCY: byte := 0x03
  const DEADLINE: byte := 0x04

  /** An absent currency is the empty string, an absent number is None. */
  datatype Budget = Budget(tokens: Option<nat>, cost: Option<nat>, currency: Bytes, deadlineMs: Option<int64>)

  const EMPTY := Budget(None, None, [], None)

  datatype Entry = Entry(fid: byte, value: Bytes)

  // Encoding

  function EncodeEntry(e: Entry): Bytes
    requires |e.value| <= MAX_VARINT
  {
    [e.fid] + EncodeVarint(|e.value|) + e.value
  }

  predicate EntriesEncodable(es: seq<Entry>) {
    forall i :: 0 <= i < |es| ==> |es[i].value| <= MAX_VARINT
  }

  function EncodeList(es: seq<Entry>): Bytes
    requires EntriesEncodable(es)
  {
    if es == [] then [] else EncodeEntry(es[0]) + EncodeList(es[1..])
  }

  function EncodeEntries(es: seq<Entry>): Bytes
    requires EntriesEncodable(es) && |es| <= MAX_VARINT
  {
    EncodeVarint(|es|) + EncodeList(es)
  }

  /** Numbers above MAX_VARINT make the encoder panic. */
  predicate BudgetEncodable(b: Budget) {
    && (b.tokens.Some? ==> b.tokens.value <= MAX_VARINT)
    && (b.cost.Some? ==> b.cost.value <= MAX_VARINT)
    && |b.currency| <= MAX_VARINT
  }

  function NumberEntries(fid: byte, v: Option<nat>): (es: seq<Entry>)
    requires v.Some? ==> v.value <= MAX_VARINT
    ensures |es| <= 1 && EntriesEncodable(es)
  {
    if v.Some? then [Entry(fid, EncodeVarint(v.value))] else []
  }

  function CurrencyEntries(currency: Bytes): (es: seq<Entry>)
    requires |currency| <= MAX_VARINT
    ensures |es| <= 1 && EntriesEncodable(es)
  {
    if currency != [] then [Entry(CURRENCY, currency)] else []
  }

  function DeadlineEntries(ms: Option<int64>): (es: seq<Entry>)
    ensures |es| <= 1 && EntriesEncodable(es)
  {
    if ms.Some? then [Entry(DEADLINE, BigEndian(ToUnsigned(ms.value), 8))] else []
  }

  /** The entry of each present field, in ascending field id order. */
  function CanonicalEntries(b: Budget): (es: seq<Entry>)
    requires BudgetEncodable(b)
    ensures |es| <= 4 && EntriesEncodable(es)
  {
    NumberEntries(TOKENS, b.tokens) + NumberEntries(COST, b.cost) +
    CurrencyEntries(b.currency) + DeadlineEntries(b.deadlineMs)
  }

  function EncodeBudget(b: Budget): Bytes
    requires BudgetEncodable(b)
  {
    EncodeEntries(CanonicalEntries(b))
  }

  // Decoding, step by step as the loop does it

  function ReadEntry(data: Bytes): (r: Result<Parsed<Entry>>)
    ensures r.Ok? ==> 2 <= r.value.size <= |data| && |r.value.value.value| <= MAX_VARINT
  {
    if |data| == 0 then Err(BadBudget)
    else
      var len :- ReadVarint(data[1..]);
      var pos := 1 + len.size;
      if |data| - pos < len.value then Err(BadBudget)
      else Ok(Parsed(Entry(data[0], data[pos..pos + len.value]), pos + len.value))
  }

  function Apply(b: Budget, e: Entry): Result<Budget> {
    match e.fid
    case 0x01 => var v :- ReadVarint(e.value); Ok(b.(tokens := Some(v.value)))
    case 0x02 => var v :- ReadVarint(e.value); Ok(b.(cost := Some(v.value)))
    case 0x03 => if |e.value| != 3 then Err(BadBudget) else Ok(b.(currency := e.value))
    case 0x04 => if |e.value| != 8 then Err(BadBudget) else Ok(b.(deadlineMs := Some(Timestamp(e.value))))
    case _ => Ok(b)
  }

  /** The loop's remaining `count` iterations and the check for trailing bytes. */
  function DecodeRest(data: Bytes, count: nat, seen: set<byte>, b: Budget): Result<Budget>
    decreases count
  {
    if count == 0 then (if data == [] then Ok(b) else Err(BadBudget))
    else
      var e :- ReadEntry(data);
      if e.value.fid in seen then Err(BadBudget)
      else
        var b' :- Apply(b, e.value);
        DecodeRest(data[e.size..], count - 1, seen + {e.value.fid}, b')
  }

  function DecodeBudget(payload: Bytes): Result<Budget> {
    var num :- ReadVarint(payload);
    if num.value == 0 then Err(BadBudget)
    else DecodeRest(payload[num.size..], num.value, {}, EMPTY)
  }

  /** How many iterations of the loop run to their end. */
  function Iterations(data: Bytes, count: nat, seen: set<byte>): nat
    decreases count
  {
    if count == 0 then 0
    else match ReadEntry(data)
      case Err(_) => 0
      case Ok(e) =>
        if e.value.fid in seen || !WellTyped(e.value) then 0
        else 1 + Iterations(data[e.size..], count - 1, seen + {e.value.fid})
  }

  function CompletedIterations(payload: Bytes): nat {
    match ReadVarint(payload)
    case Err(_) => 0
    case Ok(num) => Iterations(payload[num.size..], num.value, {})
  }

  // What a payload means, independent of the order of its entries

  predicate Distinct(es: seq<Entry>) {
    forall i, j :: 0 <= i < j < |es| ==> es[i].fid != es[j].fid
  }

  predicate WellTyped(e: Entry) {
    && (e.fid == TOKENS || e.fid == COST ==> ReadVarint(e.value).Ok?)
    && (e.fid == CURRENCY ==> |e.value| == 3)
    && (e.fid == DEADLINE ==> |e.value| == 8)
  }

  predicate Known(e: Entry) {
    TOKENS <= e.fid <= DEADLINE
  }

  /** The bytes as a list of exactly `count` entries. */
  function ParseEntries(data: Bytes, count: nat): (r: Option<seq<Entry>>)
    ensures r.Some? ==> |r.value| == count && EntriesEncodable(r.value)
    decreases count
  {
    if count == 0 then (if data == [] then Some([]) else None)
    else match ReadEntry(data)
      case Err(_) => None
      case Ok(e) =>
        match ParseEntries(data[e.size..], count - 1)
        case None => None
        case Some(rest) => Some([e.value] + rest)
  }

  /** The entry list a payload declares, if it declares one and has no bytes left over. */
  function Entries(payload: Bytes): (r: Option<seq<Entry>>)
    ensures r.Some? ==> EntriesEncodable(r.value)
  {
    match ReadVarint(payload)
    case Err(_) => None
    case Ok(num) => ParseEntries(payload[num.size..], num.value)
  }

  function Find(es: seq<Entry>, fid: byte): Option<Bytes> {
    if es == [] then None else if es[0].fid == fid then Some(es[0].value) else Find(es[1..], fid)
  }

  function NumberField(v: Option<Bytes>, otherwise: Option<nat>): Option<nat> {
    if v.Some? && ReadVarint(v.value).Ok? then Some(ReadVarint(v.value).value.value) else otherwise
  }

  /** Each known field's entry, if the list has one, else what `b` holds. */
  function Overlay(b: Budget, es: seq<Entry>): Budget {
    var deadline := Find(es, DEADLINE);
    Budget(
      NumberField(Find(es, TOKENS), b.tokens),
      NumberField(Find(es, COST), b.cost),
      match Find(es, CURRENCY) case Some(v) => v case None => b.currency,
      if deadline.Some? && |deadline.value| == 8 then Some(Timestamp(deadline.value)) else b.deadlineMs)
  }

  ghost predicate Acceptable(es: seq<Entry>) {
    Distinct(es) && forall e :: e in es ==> WellTyped(e)
  }

  lemma {:induction false} FindNone(es: seq<Entry>, fid: byte)
    requires forall e :: e in es ==> e.fid != fid
    ensures Find(es, fid) == None
  {
    if es != [] {
      FindNone(es[1..], fid);
    }
  }

  lemma {:induction false} FindHas(es: seq<Entry>, fid: byte)
    ensures Find(es, fid).Some? ==> Entry(fid, Find(es, fid).value) in es
    ensures Find(es, fid).None? ==> forall e :: e in es ==> e.fid != fid
  {
    if es != [] {
      FindHas(es[1..], fid);
    }
  }

  lemma FindIs(es: seq<Entry>, e: Entry)
    requires Distinct(es) && e in es
    ensures Find(es, e.fid) == Some(e.value)
  {
    FindHas(es, e.fid);
  }

  lemma OverlayCons(b: Budget, e: Entry, rest: seq<Entry>)
    requires WellTyped(e) && forall x :: x in rest ==> x.fid != e.fid
    ensures Apply(b, e).Ok? && Overlay(Apply(b, e).value, rest) == Overlay(b, [e] + rest)
  {
    hide ReadVarint, Timestamp;
    FindNone(rest, e.fid);
    assert ([e] + rest)[1..] == rest;
  }

  lemma ApplyOk(b: Budget, e: Entry)
    ensures Apply(b, e).Ok? <==> WellTyped(e)
  {
  }

  /** Decoding succeeds exactly on lists of new, well-typed field ids. */
  lemma {:induction false} DecodeRestMeaning(data: Bytes, count: nat, seen: set<byte>, b: Budget)
    ensures var es := ParseEntries(data, count);
            var ok := es.Some? && Acceptable(es.value) && forall e :: e in es.value ==> e.fid !in seen;
            && (DecodeRest(data, count, seen, b).Ok? <==> ok)
            && (ok ==> DecodeRest(data, count, seen, b).value == Overlay(b, es.value))
    decreases count
  {
    hide ReadEntry, Apply, WellTyped, Overlay;
    if count == 0 {
      if data == [] {
        OverlayNothing(b);
      }
    } else if ReadEntry(data).Ok? {
      var e := ReadEntry(data).value;
      ApplyOk(b, e.value);
      var es, tail := ParseEntries(data, count), ParseEntries(data[e.size..], count - 1);
      if e.value.fid !in seen && Apply(b, e.value).Ok? {
        DecodeRestMeaning(data[e.size..], count - 1, seen + {e.value.fid}, Apply(b, e.value).value);
      }
      if tail.Some? {
        assert es.value == [e.value] + tail.value;
        AcceptableCons(e.value, tail.value);
        if DecodeRest(data, count, seen, b).Ok? {
          OverlayCons(b, e.value, tail.value);
        }
      }
    }
  }

  lemma OverlayNothing(b: Budget)
    ensures Overlay(b, []) == b
  {
  }

  lemma DistinctCons(e: Entry, rest: seq<Entry>)
    ensures Distinct([e] + rest) <==> Distinct(rest) && forall x :: x in rest ==> x.fid != e.fid
  {
    var es := [e] + rest;
    if Distinct(es) {
      forall x | x in rest
        ensures x.fid != e.fid
      {
        var j :| 0 <= j < |rest| && rest[j] == x;
        assert es[0] == e && es[j + 1] == x;
      }
      forall i, j | 0 <= i < j < |rest|
        ensures rest[i].fid != rest[j].fid
      {
        assert es[i + 1] == rest[i] && es[j + 1] == rest[j];
      }
    }
  }

  lemma AcceptableCons(e: Entry, rest: seq<Entry>)
    ensures Acceptable([e] + rest) <==> WellTyped(e) && Acceptable(rest) && forall x :: x in rest ==> x.fid != e.fid
  {
    hide WellTyped, Distinct;
    DistinctCons(e, rest);
    assert forall x :: x in [e] + rest <==> x == e || x in rest;
  }

  /**
   * The meaning of every payload: it is accepted exactly when it is a non-empty
   * list of entries, with no byte left over, whose field ids are all different
   * (known or not) and whose known values are well-typed; the result then
   * holds each known field's value.
   */
  lemma BudgetMeaning(payload: Bytes)
    ensures var es := Entries(payload);
            var ok := es.Some? && es.value != [] && Acceptable(es.value);
            && (DecodeBudget(payload).Ok? <==> ok)
            && (ok ==> DecodeBudget(payload).value == Overlay(EMPTY, es.value))
  {
    hide Overlay, ReadVarint;
    if ReadVarint(payload).Ok? {
      var num := ReadVarint(payload).value;
      DecodeRestMeaning(payload[num.size..], num.value, {}, EMPTY);
    }
  }

  lemma FindSame(es: seq<Entry>, fs: seq<Entry>, fid: byte)
    requires Distinct(fs) && TOKENS <= fid <= DEADLINE
    requires forall e :: Known(e) && e in es ==> e in fs
    ensures Find(es, fid).Some? ==> Find(fs, fid) == Find(es, fid)
  {
    FindHas(es, fid);
    if Find(es, fid).Some? {
      var e := Entry(fid, Find(es, fid).value);
      assert Known(e);
      FindIs(fs, e);
    }
  }

  /** The same known entries mean the same budget, whatever the order and the unknown ids around them. */
  lemma SameKnownSameBudget(es: seq<Entry>, fs: seq<Entry>)
    requires Distinct(es) && Distinct(fs)
    requires forall e :: Known(e) ==> (e in es <==> e in fs)
    ensures Overlay(EMPTY, es) == Overlay(EMPTY, fs)
    ensures Acceptable(es) <==> Acceptable(fs)
  {
    hide ReadVarint, Timestamp;
    forall fid: byte | TOKENS <= fid <= DEADLINE
      ensures Find(es, fid) == Find(fs, fid)
    {
      FindSame(es, fs, fid);
      FindSame(fs, es, fid);
    }
  }

  /**
   * Order independence and tolerance: payloads whose entries have distinct field
   * ids and include the same known entries decode alike, in whatever order
   * the entries come and with whatever unknown ids between them.
   */
  lemma OrderIndependence(p: Bytes, q: Bytes)
    requires Entries(p).Some? && Entries(p).value != [] && Distinct(Entries(p).value)
    requires Entries(q).Some? && Entries(q).value != [] && Distinct(Entries(q).value)
    requires forall e :: Known(e) ==> (e in Entries(p).value <==> e in Entries(q).value)
    ensures DecodeBudget(p).Ok? <==> DecodeBudget(q).Ok?
    ensures DecodeBudget(p).Ok? ==> DecodeBudget(q).value == DecodeBudget(p).value
  {
    hide DecodeBudget, Entries, Overlay, Acceptable;
    BudgetMeaning(p);
    BudgetMeaning(q);
    SameKnownSameBudget(Entries(p).value, Entries(q).value);
  }

  /** Reordering the entries of a payload changes neither acceptance nor the result. */
  lemma PermutedEntries(p: Bytes, q: Bytes)
    requires Entries(p).Some? && Entries(q).Some? && multiset(Entries(p).value) == multiset(Entries(q).value)
    ensures DecodeBudget(p).Ok? <==> DecodeBudget(q).Ok?
    ensures DecodeBudget(p).Ok? ==> DecodeBudget(q).value == DecodeBudget(p).value
  {
    hide DecodeBudget, Entries, Overlay, WellTyped;
    var es, fs := Entries(p).value, Entries(q).value;
    BudgetMeaning(p);
    BudgetMeaning(q);
    DistinctUnderPermutation(es, fs);
    DistinctUnderPermutation(fs, es);
    assert forall e :: e in es <==> e in multiset(es);
    assert forall e :: e in fs <==> e in multiset(fs);
    assert |es| == |multiset(es)| == |fs|;
    if Distinct(es) && es != [] {
      OrderIndependence(p, q);
    }
  }

  lemma CountsTwice(es: seq<Entry>, i: nat, j: nat)
    requires i < j < |es| && es[i] == es[j]
    ensures multiset(es)[es[i]] >= 2
  {
    assert es == es[..j] + es[j..];
    assert es[i] == es[..j][i] && es[j] == es[j..][0];
    assert es[i] in multiset(es[..j]) && es[i] in multiset(es[j..]);
  }

  lemma {:induction false} CountedOnce(es: seq<Entry>, e: Entry)
    requires Distinct(es)
    ensures multiset(es)[e] <= 1
  {
    if es != [] {
      assert es == [es[0]] + es[1..];
      DistinctCons(es[0], es[1..]);
      CountedOnce(es[1..], e);
      if e == es[0] {
        assert e !in es[1..];
      }
    }
  }

  lemma DistinctUnderPermutation(es: seq<Entry>, fs: seq<Entry>)
    requires multiset(es) == multiset(fs)
    ensures Distinct(es) ==> Distinct(fs)
  {
    forall i, j | Distinct(es) && 0 <= i < j < |fs|
      ensures fs[i].fid != fs[j].fid
    {
      assert fs[i] in multiset(fs) && fs[j] in multiset(fs);
      assert fs[i] in es && fs[j] in es;
      if fs[i] == fs[j] {
        CountsTwice(fs, i, j);
        CountedOnce(es, fs[i]);
        assert false;
      }
    }
  }

  // Work bound

  lemma {:induction false} ByteSetSize(n: nat, s: set<byte>)
    requires n <= 0x100 && forall x :: x in s ==> x < n
    ensures |s| <= n
  {
    if n == 0 {
      assert s == {};
    } else if n - 1 in s {
      ByteSetSize(n - 1, s - {n - 1});
    } else {
      ByteSetSize(n - 1, s);
    }
  }

  /**
   * Work bound: whatever count is declared, each completed iteration consumes two
   * bytes or more and a field id not seen before.
   */
  lemma {:induction false} IterationBound(data: Bytes, count: nat, seen: set<byte>)
    ensures 2 * Iterations(data, count, seen) <= |data|
    ensures Iterations(data, count, seen) + |seen| <= 0x100
    decreases count
  {
    hide ReadEntry, WellTyped;
    ByteSetSize(0x100, seen);
    if count > 0 && ReadEntry(data).Ok? {
      var e := ReadEntry(data).value;
      if e.value.fid !in seen {
        IterationBound(data[e.size..], count - 1, seen + {e.value.fid});
      }
    }
  }

  /** The bound for a whole payload, although its declared count can reach 2^62-1. */
  lemma WorkBound(payload: Bytes)
    ensures CompletedIterations(payload) <= 0x100
    ensures DecodeBudget(payload).Ok? ==> CompletedIterations(payload) == ReadVarint(payload).value.value
    ensures match ReadVarint(payload)
            case Ok(num) => 2 * CompletedIterations(payload) <= |payload| - num.size
            case Err(_) => CompletedIterations(payload) == 0
  {
    hide ReadVarint, Iterations;
    if ReadVarint(payload).Ok? {
      var num := ReadVarint(payload).value;
      IterationBound(payload[num.size..], num.value, {});
      if DecodeBudget(payload).Ok? {
        IterationsOnSuccess(payload[num.size..], num.value, {}, EMPTY);
      }
    }
  }

  /** A successful decode ran exactly one iteration for each entry. */
  lemma {:induction false} IterationsOnSuccess(data: Bytes, count: nat, seen: set<byte>, b: Budget)
    requires DecodeRest(data, count, seen, b).Ok?
    ensures Iterations(data, count, seen) == count
    decreases count
  {
    hide ReadEntry, WellTyped, Apply;
    if count > 0 {
      var e := ReadEntry(data).value;
      ApplyOk(b, e.value);
      IterationsOnSuccess(data[e.size..], count - 1, seen + {e.value.fid}, Apply(b, e.value).value);
    }
  }

  // The loops of the encoder and the decoder

  method PresentEntries(b: Budget) returns (entries: seq<Entry>)
    requires BudgetEncodable(b)
    ensures entries == CanonicalEntries(b)
  {
    hide EncodeVarint, BigEndian;
    entries := [];
    if b.tokens.Some? {
      entries := entries + [Entry(TOKENS, EncodeVarint(b.tokens.value))];
    }
    if b.cost.Some? {
      entries := entries + [Entry(COST, EncodeVarint(b.cost.value))];
    }
    if b.currency != [] {
      entries := entries + [Entry(CURRENCY, b.currency)];
    }
    if b.deadlineMs.Some? {
      entries := entries + [Entry(DEADLINE, BigEndian(ToUnsigned(b.deadlineMs.value), 8))];
    }
  }

  method Encode(b: Budget) returns (out: Bytes)
    requires BudgetEncodable(b)
    ensures out == EncodeBudget(b)
  {
    hide EncodeVarint, EncodeEntry, CanonicalEntries;
    var entries := PresentEntries(b);
    out := EncodeVarint(|entries|);
    for i := 0 to |entries|
      invariant out == EncodeVarint(|entries|) + EncodeList(entries[..i])
    {
      EncodeListSnoc(entries, i);
      out := out + EncodeEntry(entries[i]);
    }
    assert entries[..|entries|] == entries;
  }

  lemma {:induction false} EncodeListSnoc(es: seq<Entry>, i: nat)
    requires EntriesEncodable(es) && i < |es|
    ensures EncodeList(es[..i + 1]) == EncodeList(es[..i]) + EncodeEntry(es[i])
  {
    hide EncodeEntry;
    if i == 0 {
      assert es[..1][1..] == [];
    } else {
      EncodeListSnoc(es[1..], i - 1);
      assert es[..i + 1][1..] == es[1..][..i] && es[..i][1..] == es[1..][..i - 1];
    }
  }

  /** Also returns how many iterations of the loop ran to their end. */
  method Decode(payload: Bytes) returns (r: Result<Budget>, iterations: nat)
    ensures r == DecodeBudget(payload)
    ensures iterations == CompletedIterations(payload)
  {
    hide ReadEntry, Apply, WellTyped, ReadVarint;
    var num := ReadVarint(payload);
    if num.Err? {
      return Err(num.error), 0;
    }
    if num.value.value == 0 {
      return Err(BadBudget), 0;
    }
    var pos, b, seen: set<byte> := num.value.size, EMPTY, {};
    var i := 0;
    while i < num.value.value
      invariant i <= num.value.value && 0 <= pos <= |payload|
      invariant CompletedIterations(payload) == i + Iterations(payload[pos..], num.value.value - i, seen)
      invariant DecodeBudget(payload) == DecodeRest(payload[pos..], num.value.value - i, seen, b)
    {
      var e := ReadEntry(payload[pos..]);
      if e.Err? {
        return Err(e.error), i;
      }
      var fid := e.value.value.fid;
      if fid in seen {
        return Err(BadBudget), i;
      }
      ApplyOk(b, e.value.value);
      var next := Apply(b, e.value.value);
      if next.Err? {
        return Err(next.error), i;
      }
      assert payload[pos..][e.value.size..] == payload[pos + e.value.size..];
      pos := pos + e.value.size;
      seen := seen + {fid};
      b := next.value;
      i := i + 1;
    }
    if pos != |payload| {
      return Err(BadBudget), i;
    }
    return Ok(b), i;
  }
}
