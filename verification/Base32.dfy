/** Numbers as fixed-width sequences of base-32 digits, most significant first. */
module Base32 {
  type Digit = d: nat | d < 32

  function Digits(value: nat, n: nat): (ds: seq<Digit>)
    ensures |ds| == n
  {
    if n == 0 then [] else Digits(value / 32, n - 1) + [value % 32]
  }

  function Value(ds: seq<Digit>): nat {
    if ds == [] then 0 else Value(ds[..|ds| - 1]) * 32 + ds[|ds| - 1]
  }

  function Pow32(n: nat): (p: nat)
    ensures p > 0
  {
    if n == 0 then 1 else 32 * Pow32(n - 1)
  }

  /** Order by the first digit that differs. */
  ghost predicate DigitsBefore(a: seq<Digit>, b: seq<Digit>)
    requires |a| == |b|
  {
    exists k :: 0 <= k < |a| && a[..k] == b[..k] && a[k] < b[k]
  }

  lemma ValueSnoc(ds: seq<Digit>, d: Digit)
    ensures Value(ds + [d]) == Value(ds) * 32 + d
  {
    assert (ds + [d])[..|ds|] == ds;
  }

  lemma {:induction false} ValueOfDigits(value: nat, n: nat)
    requires value < Pow32(n)
    ensures Value(Digits(value, n)) == value
  {
    if n > 0 {
      ValueOfDigits(value / 32, n - 1);
      ValueSnoc(Digits(value / 32, n - 1), value % 32);
    }
  }

  lemma {:induction false} DigitsOfValue(ds: seq<Digit>)
    ensures Value(ds) < Pow32(|ds|)
    ensures Digits(Value(ds), |ds|) == ds
  {
    if ds != [] {
      var init, last := ds[..|ds| - 1], ds[|ds| - 1];
      DigitsOfValue(init);
      assert Value(ds) / 32 == Value(init) && Value(ds) % 32 == last;
      assert ds == init + [last];
    }
  }

  /** The digits of a sum whose low part fits the low digits. */
  lemma {:induction false} DigitsSplit(high: nat, low: nat, n: nat, m: nat)
    requires low < Pow32(m)
    ensures Digits(high * Pow32(m) + low, n + m) == Digits(high, n) + Digits(low, m)
    decreases m
  {
    if m == 0 {
      assert high * Pow32(0) + low == high;
    } else {
      ShiftSum(high, Pow32(m - 1), low);
      DigitsSplit(high, low / 32, n, m - 1);
    }
  }

  lemma ShiftSum(high: nat, p: nat, low: nat)
    ensures (high * (32 * p) + low) / 32 == high * p + low / 32
    ensures (high * (32 * p) + low) % 32 == low % 32
  {
    assert high * (32 * p) == 32 * (high * p);
  }

  lemma WithinBlock(lead: nat, p: nat, value: nat, d: Digit)
    requires lead * p <= value < (lead + 1) * p
    ensures lead * (32 * p) <= value * 32 + d < (lead + 1) * (32 * p)
  {
    assert lead * (32 * p) == 32 * (lead * p);
    assert (lead + 1) * (32 * p) == 32 * ((lead + 1) * p);
  }

  /** The leading digit is what the value has above its other digits. */
  lemma {:induction false} LeadingDigit(ds: seq<Digit>)
    requires ds != []
    ensures var lead: nat := ds[0]; lead * Pow32(|ds| - 1) <= Value(ds) < (lead + 1) * Pow32(|ds| - 1)
  {
    var init := ds[..|ds| - 1];
    if init != [] {
      LeadingDigit(init);
      WithinBlock(ds[0], Pow32(|ds| - 2), Value(init), ds[|ds| - 1]);
    }
  }

  lemma DigitsBeforeSnoc(a: seq<Digit>, b: seq<Digit>, x: Digit, y: Digit)
    requires |a| == |b|
    ensures DigitsBefore(a + [x], b + [y]) <==> DigitsBefore(a, b) || (a == b && x < y)
  {
    var a', b' := a + [x], b + [y];
    if DigitsBefore(a', b') {
      var k :| 0 <= k < |a'| && a'[..k] == b'[..k] && a'[k] < b'[k];
      assert a'[..k] == a[..k] && b'[..k] == b[..k];
      if k < |a| {
        assert a[k] < b[k];
      } else {
        assert a[..k] == a && b[..k] == b;
      }
    }
    if DigitsBefore(a, b) {
      var k :| 0 <= k < |a| && a[..k] == b[..k] && a[k] < b[k];
      assert a'[..k] == a[..k] && b'[..k] == b[..k] && a'[k] < b'[k];
    }
    if a == b && x < y {
      var k := |a|;
      assert a'[..k] == a && b'[..k] == b && a'[k] < b'[k];
    }
  }

  lemma OrderByLastDigit(v: nat, w: nat)
    ensures v < w <==> v / 32 < w / 32 || (v / 32 == w / 32 && v % 32 < w % 32)
  {
  }

  lemma ShorterFits(v: nat, n: nat)
    requires n > 0 && v < Pow32(n)
    ensures v / 32 < Pow32(n - 1)
  {
  }

  lemma SameDigitsSameValue(v: nat, w: nat, n: nat)
    requires v < Pow32(n) && w < Pow32(n)
    ensures Digits(v, n) == Digits(w, n) <==> v == w
  {
    ValueOfDigits(v, n);
    ValueOfDigits(w, n);
  }

  /** Digit order is numeric order. */
  lemma {:induction false} DigitsOrder(v: nat, w: nat, n: nat)
    requires v < Pow32(n) && w < Pow32(n)
    ensures v < w <==> DigitsBefore(Digits(v, n), Digits(w, n))
  {
    if n > 0 {
      ShorterFits(v, n);
      ShorterFits(w, n);
      DigitsOrder(v / 32, w / 32, n - 1);
      SameDigitsSameValue(v / 32, w / 32, n - 1);
      OrderByLastDigit(v, w);
      DigitsBeforeSnoc(Digits(v / 32, n - 1), Digits(w / 32, n - 1), v % 32, w % 32);
    }
  }
}
