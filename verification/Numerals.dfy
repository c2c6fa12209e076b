/** Positional numerals, most significant digit first, in any base from two upward. */
module Numerals {

  function Pow(base: nat, e: nat): nat {
    if e == 0 then 1 else base * Pow(base, e - 1)
  }

  ghost predicate IsNumeral(ds: seq<nat>, base: nat) {
    forall i :: 0 <= i < |ds| ==> ds[i] < base
  }

  function Value(ds: seq<nat>, base: nat): nat {
    if |ds| == 0 then 0 else Value(ds[..|ds| - 1], base) * base + ds[|ds| - 1]
  }

  /** The digits of `n` without leading zeros; zero has no digits. */
  function Digits(n: nat, base: nat): (ds: seq<nat>)
    requires 2 <= base
    ensures IsNumeral(ds, base)
    decreases n
  {
    if n == 0 then [] else QuotientShrinks(n, base); Digits(n / base, base) + [n % base]
  }

  /** The low `len` digits of `n`. */
  function Fixed(n: nat, base: nat, len: nat): (ds: seq<nat>)
    requires 2 <= base
    ensures |ds| == len && IsNumeral(ds, base)
    decreases len
  {
    if len == 0 then [] else QuotientShrinks(n, base); Fixed(n / base, base, len - 1) + [n % base]
  }

  function LeadingZeros(ds: seq<nat>): (k: nat)
    ensures k <= |ds|
    ensures forall i :: 0 <= i < k ==> ds[i] == 0
    ensures k < |ds| ==> ds[k] != 0
  {
    if |ds| == 0 || ds[0] != 0 then 0 else 1 + LeadingZeros(ds[1..])
  }

  function Zeros(k: nat): (ds: seq<nat>)
    ensures |ds| == k
  {
    seq(k, _ => 0)
  }

  /**
   * Rewrites a numeral from one base to another and keeps its count of
   * leading zeros, which is what base58btc does to a byte string.
   */
  function Recode(ds: seq<nat>, base: nat, target: nat): (r: seq<nat>)
    requires 2 <= target
    ensures IsNumeral(r, target)
  {
    Zeros(LeadingZeros(ds)) + Digits(Value(ds, base), target)
  }

  lemma QuotientShrinks(n: nat, base: nat)
    requires 2 <= base
    ensures 0 <= n / base
    ensures n > 0 ==> n / base < n
    ensures 0 <= n % base < base
    ensures n == n / base * base + n % base
  {
    var q := n / base;
    assert n == q * base + n % base;
    assert q > 0 ==> q * base >= q * 2;
  }

  lemma MulMonotone(x: nat, y: nat, z: nat)
    requires x <= y
    ensures x * z <= y * z
  {
  }

  lemma AppendDigitBound(v: nat, p: nat, base: nat, d: nat)
    requires v < p && d < base
    ensures v * base + d < base * p
  {
    MulMonotone(v + 1, p, base);
  }

  /** Two quotients of nearby numbers cannot be a whole multiple apart. */
  lemma SmallMultiple(d: int, base: nat)
    requires 0 - base < d * base < base
    ensures d == 0
  {
  }

  lemma DivModUnique(q: nat, r: nat, base: nat)
    requires 2 <= base && r < base
    ensures (q * base + r) / base == q && (q * base + r) % base == r
  {
    var n := q * base + r;
    QuotientShrinks(n, base);
    var d := n / base - q;
    assert d * base == r - n % base;
    SmallMultiple(d, base);
  }

  lemma NoDigits(ds: seq<nat>, base: nat)
    requires |ds| == 0
    ensures Value(ds, base) == 0
  {
  }

  lemma ValueOfDigit(d: nat, base: nat)
    ensures Value([d], base) == d
  {
    assert [d][..0] == [];
  }

  lemma ShiftAndAppend(x: nat, p: nat, y: nat, base: nat, d: nat)
    ensures (x * p + y) * base + d == x * (base * p) + (y * base + d)
  {
    assert x * p * base == x * (base * p);
  }

  lemma {:induction false} ValueOfConcat(a: seq<nat>, b: seq<nat>, base: nat)
    ensures Value(a + b, base) == Value(a, base) * Pow(base, |b|) + Value(b, base)
  {
    if |b| == 0 {
      assert a + b == a;
    } else {
      var b' := b[..|b| - 1];
      assert (a + b)[..|a + b| - 1] == a + b';
      ValueOfConcat(a, b', base);
      ShiftAndAppend(Value(a, base), Pow(base, |b'|), Value(b', base), base, b[|b| - 1]);
    }
  }

  lemma {:induction false} ValueBound(ds: seq<nat>, base: nat)
    requires IsNumeral(ds, base)
    ensures Value(ds, base) < Pow(base, |ds|)
  {
    if |ds| > 0 {
      var init := ds[..|ds| - 1];
      ValueBound(init, base);
      AppendDigitBound(Value(init, base), Pow(base, |init|), base, ds[|ds| - 1]);
    }
  }

  /** A numeral is bounded by its first digit. */
  lemma LeadingDigitBound(d: nat, rest: seq<nat>, base: nat, limit: nat)
    requires d < limit && IsNumeral(rest, base)
    ensures Value([d] + rest, base) < limit * Pow(base, |rest|)
  {
    ValueOfConcat([d], rest, base);
    ValueBound(rest, base);
    ValueOfDigit(d, base);
    AppendDigitBound(d, limit, Pow(base, |rest|), Value(rest, base));
  }

  lemma QuotientBelow(n: nat, base: nat, p: nat)
    requires 2 <= base && n < base * p
    ensures n / base < p
  {
    QuotientShrinks(n, base);
    if p <= n / base {
      MulMonotone(p, n / base, base);
      assert false;
    }
  }

  lemma {:induction false} ValueOfFixed(n: nat, base: nat, len: nat)
    requires 2 <= base && n < Pow(base, len)
    ensures Value(Fixed(n, base, len), base) == n
    decreases len
  {
    if len > 0 {
      QuotientShrinks(n, base);
      var q := n / base;
      QuotientBelow(n, base, Pow(base, len - 1));
      ValueOfFixed(q, base, len - 1);
      assert Fixed(n, base, len)[..len - 1] == Fixed(q, base, len - 1);
    }
  }

  lemma {:induction false} FixedOfValue(ds: seq<nat>, base: nat)
    requires 2 <= base && IsNumeral(ds, base)
    ensures Fixed(Value(ds, base), base, |ds|) == ds
  {
    if |ds| > 0 {
      var init := ds[..|ds| - 1];
      FixedOfValue(init, base);
      DivModUnique(Value(init, base), ds[|ds| - 1], base);
    }
  }

  lemma {:induction false} ValueOfDigits(n: nat, base: nat)
    requires 2 <= base
    ensures Value(Digits(n, base), base) == n
    ensures n > 0 ==> |Digits(n, base)| > 0 && Digits(n, base)[0] != 0
    decreases n
  {
    if n > 0 {
      QuotientShrinks(n, base);
      ValueOfDigits(n / base, base);
      assert Digits(n, base)[..|Digits(n, base)| - 1] == Digits(n / base, base);
    }
  }

  lemma {:induction false} DigitsOfValue(ds: seq<nat>, base: nat)
    requires 2 <= base && IsNumeral(ds, base)
    requires |ds| > 0 ==> ds[0] != 0
    ensures Digits(Value(ds, base), base) == ds
    ensures |ds| > 0 ==> Value(ds, base) > 0
  {
    if |ds| > 0 {
      var init, last := ds[..|ds| - 1], ds[|ds| - 1];
      DigitsOfValue(init, base);
      DivModUnique(Value(init, base), last, base);
      MulMonotone(1, base, Value(init, base));
    }
  }

  lemma {:induction false} ValueOfZeros(k: nat, base: nat)
    ensures Value(Zeros(k), base) == 0
  {
    if k > 0 {
      ValueOfZeros(k - 1, base);
      assert Zeros(k)[..k - 1] == Zeros(k - 1);
    }
  }

  lemma {:induction false} LeadingZerosOfPadded(k: nat, ds: seq<nat>)
    requires |ds| > 0 ==> ds[0] != 0
    ensures LeadingZeros(Zeros(k) + ds) == k
  {
    var padded := Zeros(k) + ds;
    assert forall i :: 0 <= i < k ==> padded[i] == 0;
    assert k < |padded| ==> padded[k] == ds[0];
  }

  /** Recoding there and back is the identity, leading zeros included. */
  lemma RecodeInverse(ds: seq<nat>, base: nat, target: nat)
    requires 2 <= base && 2 <= target && IsNumeral(ds, base)
    ensures Recode(Recode(ds, base, target), target, base) == ds
  {
    var k := LeadingZeros(ds);
    var body := ds[k..];
    assert ds == Zeros(k) + body;
    var n := Value(ds, base);
    ValueOfZeros(k, base);
    ValueOfConcat(Zeros(k), body, base);
    assert n == Value(body, base);
    var there := Digits(n, target);
    ValueOfDigits(n, target);
    LeadingZerosOfPadded(k, there);
    ValueOfZeros(k, target);
    ValueOfConcat(Zeros(k), there, target);
    DigitsOfValue(body, base);
  }

  /** Recoding keeps the number and the count of leading zeros. */
  lemma RecodedValue(ds: seq<nat>, base: nat, target: nat)
    requires 2 <= target
    ensures Value(Recode(ds, base, target), target) == Value(ds, base)
    ensures LeadingZeros(Recode(ds, base, target)) == LeadingZeros(ds)
  {
    var k, n := LeadingZeros(ds), Value(ds, base);
    ValueOfDigits(n, target);
    ValueOfZeros(k, target);
    ValueOfConcat(Zeros(k), Digits(n, target), target);
    LeadingZerosOfPadded(k, Digits(n, target));
  }

  lemma {:induction false} PowSum(base: nat, m: nat, n: nat)
    ensures Pow(base, m + n) == Pow(base, m) * Pow(base, n)
  {
    if n > 0 {
      PowSum(base, m, n - 1);
      MulSwap(base, Pow(base, m), Pow(base, n - 1));
    }
  }

  lemma MulSwap(x: nat, y: nat, z: nat)
    ensures x * (y * z) == y * (x * z)
  {
  }

  lemma PowPositive(base: nat, e: nat)
    requires base > 0
    ensures Pow(base, e) > 0
  {
  }

  lemma {:induction false} PowMonotone(base: nat, m: nat, n: nat)
    requires base > 0 && m <= n
    ensures Pow(base, m) <= Pow(base, n)
  {
    PowSum(base, m, n - m);
    PowPositive(base, n - m);
    MulMonotone(1, Pow(base, n - m), Pow(base, m));
  }

  /** How many digits a number has. */
  lemma DigitCount(n: nat, base: nat, len: nat)
    requires 2 <= base && len > 0 && Pow(base, len - 1) <= n < Pow(base, len)
    ensures |Digits(n, base)| == len
  {
    var ds := Digits(n, base);
    PowPositive(base, len - 1);
    ValueOfDigits(n, base);
    ValueBound(ds, base);
    FirstDigitBound(ds, base);
    if |ds| < len {
      PowMonotone(base, |ds|, len - 1);
    } else if |ds| > len {
      PowMonotone(base, len, |ds| - 1);
    }
  }

  lemma FirstDigitBound(ds: seq<nat>, base: nat)
    requires |ds| > 0 && ds[0] > 0
    ensures Pow(base, |ds| - 1) <= Value(ds, base)
  {
    assert ds == [ds[0]] + ds[1..];
    ValueOfConcat([ds[0]], ds[1..], base);
    ValueOfDigit(ds[0], base);
    MulMonotone(1, ds[0], Pow(base, |ds| - 1));
  }

  /** The leading digits are the quotient by the rest's power. */
  lemma LeadingDigits(ds: seq<nat>, base: nat, k: nat, q: nat)
    requires 2 <= base && IsNumeral(ds, base) && k <= |ds|
    requires q * Pow(base, |ds| - k) <= Value(ds, base) < (q + 1) * Pow(base, |ds| - k)
    ensures Value(ds[..k], base) == q
  {
    var p, v := Pow(base, |ds| - k), Value(ds[..k], base);
    assert ds == ds[..k] + ds[k..];
    ValueOfConcat(ds[..k], ds[k..], base);
    ValueBound(ds[k..], base);
    hide Value, Pow;
    SameQuotient(v, Value(ds[k..], base), p, q);
  }

  lemma SameQuotient(v: nat, r: nat, p: nat, q: nat)
    requires r < p && q * p <= v * p + r < (q + 1) * p
    ensures v == q
  {
    if v < q {
      MulMonotone(v + 1, q, p);
    } else if v > q {
      MulMonotone(q + 1, v, p);
    }
  }
}
