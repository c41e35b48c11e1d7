/** Which numbers JSON.stringify prints as plain digits, and which with an exponent. */
module JsonNumberText {
  import opened CodeUnits
  import opened Decimals
  import opened JsonNumber

  function Ten(n: nat): nat {
    if n == 0 then 1 else 10 * Ten(n - 1)
  }

  lemma {:induction false} TenRises(m: nat, n: nat)
    requires m <= n
    ensures Ten(m) <= Ten(n)
    decreases n - m
  {
    if m < n { TenRises(m, n - 1); }
  }

  lemma {:induction false} ValueBounds(ds: seq<nat>)
    requires ds != [] && AreDigits(ds) && ds[0] != 0
    ensures Ten(|ds| - 1) <= Value(ds) < Ten(|ds|)
  {
    var most := ds[..|ds| - 1];
    if most == [] {
      assert Value([]) == 0;
    } else {
      ValueBounds(most);
    }
  }

  lemma {:induction false} DigitsOfValue(ds: seq<nat>)
    requires ds != [] && AreDigits(ds) && ds[0] != 0
    ensures Digits(Value(ds)) == ds
  {
    var most := ds[..|ds| - 1];
    if most == [] {
      assert Value([]) == 0;
    } else {
      DigitsOfValue(most);
      ValueBounds(most);
      TenRises(0, |most| - 1);
      assert ds == most + [ds[|ds| - 1]];
    }
  }

  lemma NoExponentInDigits(ds: seq<nat>)
    requires AreDigits(ds)
    ensures SMALL_E !in DigitText(ds)
  {
  }

  /** A number is printed with an exponent exactly from 10^21 on and below 10^-6. */
  lemma ExponentExactly(x: Number)
    requires Shortest(x)
    ensures SMALL_E in ToText(x) <==> x.Nonzero? && (x.point > 21 || x.point <= -6)
  {
    if x.Nonzero? {
      var ds, n, k := x.digits, x.point, |x.digits|;
      if k <= n <= 21 {
        NoExponentInDigits(ds + Zeros(n - k));
      } else if 0 < n <= 21 {
        NoExponentInDigits(ds[..n]);
        NoExponentInDigits(ds[n..]);
      } else if -6 < n <= 0 {
        NoExponentInDigits(Zeros(-n) + ds);
      } else {
        assert SMALL_E in ExponentText(n - 1);
      }
    }
  }

  /** The magnitude of an integer: its digits, and the zeros up to the point. */
  function Magnitude(x: Number): nat
    requires x.Nonzero? && |x.digits| <= x.point
  {
    Value(x.digits + Zeros(x.point - |x.digits|))
  }

  lemma MagnitudeBelow(x: Number, n: nat)
    requires Shortest(x) && x.Nonzero? && |x.digits| <= x.point
    ensures Magnitude(x) < Ten(n) <==> x.point <= n
  {
    ValueBounds(x.digits + Zeros(x.point - |x.digits|));
    if x.point <= n {
      TenRises(x.point, n);
    } else {
      TenRises(n, x.point - 1);
    }
  }

  lemma PlainDigits(x: Number)
    requires Shortest(x) && x.Nonzero? && |x.digits| <= x.point
    ensures ToText(x) == (if x.negative then [MINUS] else []) + DigitText(Digits(Magnitude(x))) <==> x.point <= 21
  {
    var all := x.digits + Zeros(x.point - |x.digits|);
    DigitsOfValue(all);
    ExponentExactly(x);
    NoExponentInDigits(all);
  }

  /** An integer is printed as its decimal digits exactly when it is below 10^21. */
  lemma IntegersExactly(x: Number, limit: nat)
    requires Shortest(x) && x.Nonzero? && |x.digits| <= x.point && limit == 21
    ensures ToText(x) == (if x.negative then [MINUS] else []) + DigitText(Digits(Magnitude(x))) <==>
      Magnitude(x) < Ten(limit)
  {
    PlainDigits(x);
    MagnitudeBelow(x, limit);
  }
}
