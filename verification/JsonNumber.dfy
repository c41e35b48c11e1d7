/** How JSON.stringify prints a finite number: Number::toString of ECMA-262, section
    6.1.6.1.20. A number is given by its shortest decimal digits; -0 prints as 0. */
module JsonNumber {
  import opened CodeUnits
  import opened Concat
  import opened Decimals
  import opened Wrappers

  /** The value is 0.d1d2...dk * 10^point; the standard calls `point` n. */
  datatype Number = Zero | Nonzero(negative: bool, digits: seq<nat>, point: int)

  predicate Shortest(x: Number) {
    x.Nonzero? ==>
      && x.digits != [] && (forall i :: 0 <= i < |x.digits| ==> x.digits[i] < 10)
      && x.digits[0] != 0 && x.digits[|x.digits| - 1] != 0
  }

  predicate AreDigits(ds: seq<nat>) { forall i :: 0 <= i < |ds| ==> ds[i] < 10 }

  function Zeros(n: nat): (ds: seq<nat>)
    ensures |ds| == n && forall i :: 0 <= i < n ==> ds[i] == 0
  {
    seq(n, i => 0)
  }

  function DigitText(ds: seq<nat>): (t: Utf16)
    requires AreDigits(ds)
    ensures |t| == |ds| && forall i :: 0 <= i < |t| ==> IsDigit(t[i])
  {
    seq(|ds|, i requires 0 <= i < |ds| => 48 + ds[i])
  }

  function ExponentText(e: int): Utf16 {
    [SMALL_E] + (if e >= 0 then [PLUS] + DigitText(Digits(e)) else [MINUS] + DigitText(Digits(-e)))
  }

  function PositiveText(ds: seq<nat>, n: int): Utf16
    requires ds != [] && AreDigits(ds)
  {
    var k := |ds|;
    if k <= n <= 21 then DigitText(ds + Zeros(n - k))
    else if 0 < n <= 21 then DigitText(ds[..n]) + [DOT] + DigitText(ds[n..])
    else if -6 < n <= 0 then [ZERO, DOT] + DigitText(Zeros(-n) + ds)
    else if k == 1 then DigitText(ds) + ExponentText(n - 1)
    else DigitText(ds[..1]) + [DOT] + DigitText(ds[1..]) + ExponentText(n - 1)
  }

  function ToText(x: Number): Utf16
    requires Shortest(x)
  {
    match x
    case Zero => [ZERO]
    case Nonzero(negative, digits, point) => (if negative then [MINUS] else []) + PositiveText(digits, point)
  }

  // ---------------------------------------------------------------- reading a number

  /** The digits of `t`, other code units aside. */
  function ReadDigits(t: Utf16): (ds: seq<nat>)
    ensures AreDigits(ds)
  {
    if t == [] then [] else (if IsDigit(t[0]) then [t[0] - 48] else []) + ReadDigits(t[1..])
  }

  function DropTrailingZeros(ds: seq<nat>): seq<nat> {
    if ds == [] || ds[|ds| - 1] != 0 then ds else DropTrailingZeros(ds[..|ds| - 1])
  }

  /** The number 0.ds * 10^point with superfluous zeros removed. */
  function Normalize(negative: bool, ds: seq<nat>, point: int): Number {
    if ds == [] then Zero
    else if ds[0] == 0 then Normalize(negative, ds[1..], point - 1)
    else Nonzero(negative, DropTrailingZeros(ds), point)
  }

  function ReadExponent(t: Utf16): int {
    var e: int := Value(ReadDigits(t));
    if t != [] && t[0] == MINUS then -e else e
  }

  function ReadPositive(negative: bool, t: Utf16): Number {
    var e := IndexOf(t, SMALL_E);
    var mantissa := t[..e];
    var dot := IndexOf(mantissa, DOT);
    var exponent := if e < |t| then ReadExponent(t[e + 1..]) else 0;
    Normalize(negative, ReadDigits(mantissa), dot + exponent)
  }

  /** The number that a text of the grammar below denotes. */
  function Read(t: Utf16): Number {
    if t != [] && t[0] == MINUS then ReadPositive(true, t[1..]) else ReadPositive(false, t)
  }

  // ---------------------------------------------------------------- the number grammar

  predicate AllDigits(t: Utf16) { forall i :: 0 <= i < |t| ==> IsDigit(t[i]) }

  /** int = zero / ( digit1-9 *DIGIT ) */
  predicate IsInteger(t: Utf16) {
    t != [] && AllDigits(t) && (t[0] == ZERO ==> |t| == 1)
  }

  /** int [ frac ], frac = decimal-point 1*DIGIT */
  predicate IsMantissa(t: Utf16) {
    var dot := IndexOf(t, DOT);
    IsInteger(t[..dot]) && (dot < |t| ==> t[dot + 1..] != [] && AllDigits(t[dot + 1..]))
  }

  /** exp without its e: [ minus / plus ] 1*DIGIT */
  predicate IsExponent(t: Utf16) {
    var ds := if t != [] && (t[0] == PLUS || t[0] == MINUS) then t[1..] else t;
    ds != [] && AllDigits(ds)
  }

  predicate IsUnsigned(t: Utf16) {
    var e := IndexOf(t, SMALL_E);
    IsMantissa(t[..e]) && (e < |t| ==> IsExponent(t[e + 1..]))
  }

  /** The number texts of RFC 8259, section 6, with a small e where there is an exponent. */
  predicate IsNumberText(t: Utf16) {
    IsUnsigned(if t != [] && t[0] == MINUS then t[1..] else t)
  }

  // ---------------------------------------------------------------- round trip

  predicate NumberUnit(u: Unit) {
    IsDigit(u) || u == PLUS || u == MINUS || u == DOT || u == SMALL_E
  }

  lemma {:induction false} ReadDigitText(ds: seq<nat>)
    requires AreDigits(ds)
    ensures ReadDigits(DigitText(ds)) == ds
  {
    if ds == [] {
    } else {
      ReadDigitText(ds[1..]);
      assert DigitText(ds)[1..] == DigitText(ds[1..]);
    }
  }

  lemma {:induction false} ReadDigitsConcat(a: Utf16, b: Utf16)
    ensures ReadDigits(a + b) == ReadDigits(a) + ReadDigits(b)
  {
    if a == [] {
      assert a + b == b;
    } else {
      var first := if IsDigit(a[0]) then [a[0] - 48] else [];
      var s := a + b;
      assert s[0] == a[0] && s[1..] == a[1..] + b;
      ReadDigitsConcat(a[1..], b);
      assert ReadDigits(s) == first + ReadDigits(a[1..] + b);
      assert first + (ReadDigits(a[1..]) + ReadDigits(b)) == (first + ReadDigits(a[1..])) + ReadDigits(b);
    }
  }

  lemma {:induction false} DropZeros(ds: seq<nat>, n: nat)
    requires ds != [] && ds[|ds| - 1] != 0
    ensures DropTrailingZeros(ds + Zeros(n)) == ds
  {
    if n == 0 {
      assert ds + Zeros(0) == ds;
    } else {
      DropZeros(ds, n - 1);
      assert (ds + Zeros(n))[..|ds + Zeros(n)| - 1] == ds + Zeros(n - 1);
    }
  }

  lemma {:induction false} NormalizeZeros(negative: bool, n: nat, ds: seq<nat>, point: int)
    ensures Normalize(negative, Zeros(n) + ds, point) == Normalize(negative, ds, point - n)
  {
    if n == 0 {
      assert Zeros(0) + ds == ds;
    } else {
      NormalizeZeros(negative, n - 1, ds, point - 1);
      assert (Zeros(n) + ds)[1..] == Zeros(n - 1) + ds;
    }
  }

  lemma FindUnit(a: Utf16, u: Unit, b: Utf16)
    requires forall i :: 0 <= i < |a| ==> a[i] != u
    ensures IndexOf(a + [u] + b, u) == |a|
  {
    assert (a + [u] + b)[|a|] == u;
    assert forall i :: 0 <= i < |a| ==> (a + [u] + b)[i] == a[i];
  }

  lemma FindNone(a: Utf16, u: Unit)
    requires forall i :: 0 <= i < |a| ==> a[i] != u
    ensures IndexOf(a, u) == |a|
  {
  }

  lemma ReadExponentText(e: int)
    ensures ReadExponent(ExponentText(e)[1..]) == e
  {
    var ds := Digits(if e >= 0 then e else -e);
    var sign: Unit := if e >= 0 then PLUS else MINUS;
    assert ExponentText(e)[1..] == [sign] + DigitText(ds);
    ReadDigitsConcat([sign], DigitText(ds));
    ReadDigitText(ds);
    DigitsValue(if e >= 0 then e else -e);
    assert ReadDigits([sign]) == [];
    assert [] + ds == ds;
  }

  function Mantissa(a: seq<nat>, dotted: bool, b: seq<nat>): Utf16
    requires AreDigits(a) && AreDigits(b)
  {
    DigitText(a) + (if dotted then [DOT] + DigitText(b) else [])
  }

  lemma ReadMantissa(a: seq<nat>, dotted: bool, b: seq<nat>)
    requires AreDigits(a) && AreDigits(b) && (!dotted ==> b == [])
    ensures
      var m := Mantissa(a, dotted, b);
      IndexOf(m, DOT) == |a| && ReadDigits(m) == a + b && IndexOf(m, SMALL_E) == |m|
  {
    var m := Mantissa(a, dotted, b);
    FindNone(m, SMALL_E);
    ReadDigitText(a);
    if dotted {
      FindUnit(DigitText(a), DOT, DigitText(b));
      assert m == DigitText(a) + [DOT] + DigitText(b);
      ReadDigitText(b);
      ReadDigitsConcat(DigitText(a), [DOT] + DigitText(b));
      assert ([DOT] + DigitText(b))[1..] == DigitText(b);
      assert [] + b == b;
    } else {
      assert m == DigitText(a);
      FindNone(DigitText(a), DOT);
      assert a + b == a;
    }
  }

  lemma ReadPlain(negative: bool, m: Utf16)
    requires IndexOf(m, SMALL_E) == |m|
    ensures ReadPositive(negative, m) == Normalize(negative, ReadDigits(m), IndexOf(m, DOT))
  {
    assert m[..|m|] == m;
  }

  lemma ReadScaled(negative: bool, m: Utf16, e: int)
    requires IndexOf(m, SMALL_E) == |m|
    ensures ReadPositive(negative, m + ExponentText(e)) == Normalize(negative, ReadDigits(m), IndexOf(m, DOT) + e)
  {
    var rest := ExponentText(e)[1..];
    var t := m + ExponentText(e);
    FindUnit(m, SMALL_E, rest);
    assert t == m + [SMALL_E] + rest;
    ReadExponentText(e);
    assert t[|m| + 1..] == rest && t[..|m|] == m;
  }

  lemma ReadWhole(negative: bool, ds: seq<nat>, n: int)
    requires Shortest(Nonzero(negative, ds, n)) && |ds| <= n <= 21
    ensures ReadPositive(negative, PositiveText(ds, n)) == Nonzero(negative, ds, n)
  {
    var all := ds + Zeros(n - |ds|);
    ReadMantissa(all, false, []);
    assert Mantissa(all, false, []) == DigitText(all) && all + [] == all;
    ReadPlain(negative, DigitText(all));
    DropZeros(ds, n - |ds|);
  }

  lemma ReadPointInside(negative: bool, ds: seq<nat>, n: int)
    requires Shortest(Nonzero(negative, ds, n)) && 0 < n < |ds| && n <= 21
    ensures ReadPositive(negative, PositiveText(ds, n)) == Nonzero(negative, ds, n)
  {
    ReadMantissa(ds[..n], true, ds[n..]);
    assert ds[..n] + ds[n..] == ds;
    assert PositiveText(ds, n) == Mantissa(ds[..n], true, ds[n..]);
    ReadPlain(negative, PositiveText(ds, n));
  }

  lemma FractionText(ds: seq<nat>, n: int)
    requires ds != [] && AreDigits(ds) && -6 < n <= 0
    ensures PositiveText(ds, n) == Mantissa([0], true, Zeros(-n) + ds)
  {
    assert DigitText([0]) == [ZERO];
  }

  lemma FractionDigits(negative: bool, ds: seq<nat>, n: int)
    requires Shortest(Nonzero(negative, ds, n)) && n <= 0
    ensures Normalize(negative, [0] + (Zeros(-n) + ds), 1) == Nonzero(negative, ds, n)
  {
    assert [0] + (Zeros(-n) + ds) == Zeros(1 - n) + ds;
    NormalizeZeros(negative, 1 - n, ds, 1);
  }

  lemma ReadFraction(negative: bool, ds: seq<nat>, n: int)
    requires Shortest(Nonzero(negative, ds, n)) && -6 < n <= 0
    ensures ReadPositive(negative, PositiveText(ds, n)) == Nonzero(negative, ds, n)
  {
    FractionText(ds, n);
    ReadMantissa([0], true, Zeros(-n) + ds);
    ReadPlain(negative, Mantissa([0], true, Zeros(-n) + ds));
    FractionDigits(negative, ds, n);
  }

  lemma ScientificText(ds: seq<nat>, n: int)
    requires ds != [] && AreDigits(ds) && (n <= -6 || n > 21)
    ensures PositiveText(ds, n) == Mantissa(ds[..1], |ds| > 1, ds[1..]) + ExponentText(n - 1)
  {
    if |ds| == 1 {
      assert ds[..1] == ds;
      assert DigitText(ds) + [] == DigitText(ds);
    } else {
      AssocMiddle(DigitText(ds[..1]), [DOT], DigitText(ds[1..]), ExponentText(n - 1));
    }
  }

  lemma ReadScaledDigits(negative: bool, a: seq<nat>, dotted: bool, b: seq<nat>, e: int)
    requires AreDigits(a) && AreDigits(b) && (!dotted ==> b == [])
    ensures ReadPositive(negative, Mantissa(a, dotted, b) + ExponentText(e)) == Normalize(negative, a + b, |a| + e)
  {
    ReadMantissa(a, dotted, b);
    ReadScaled(negative, Mantissa(a, dotted, b), e);
  }

  lemma HeadAndTail(ds: seq<nat>)
    requires ds != []
    ensures ds[..1] + ds[1..] == ds
  {
  }

  lemma ShortestNormal(negative: bool, ds: seq<nat>, n: int)
    requires Shortest(Nonzero(negative, ds, n))
    ensures Normalize(negative, ds, n) == Nonzero(negative, ds, n)
  {
  }

  lemma ReadScientificText(negative: bool, ds: seq<nat>, n: int)
    requires Shortest(Nonzero(negative, ds, n))
    ensures ReadPositive(negative, Mantissa(ds[..1], |ds| > 1, ds[1..]) + ExponentText(n - 1)) ==
      Nonzero(negative, ds, n)
  {
    ReadScaledDigits(negative, ds[..1], |ds| > 1, ds[1..], n - 1);
    HeadAndTail(ds);
    ShortestNormal(negative, ds, n);
  }

  lemma ReadScientific(negative: bool, ds: seq<nat>, n: int)
    requires Shortest(Nonzero(negative, ds, n)) && (n <= -6 || n > 21)
    ensures ReadPositive(negative, PositiveText(ds, n)) == Nonzero(negative, ds, n)
  {
    ScientificText(ds, n);
    ReadScientificText(negative, ds, n);
  }

  lemma ReadPositiveText(negative: bool, ds: seq<nat>, n: int)
    requires Shortest(Nonzero(negative, ds, n))
    ensures ReadPositive(negative, PositiveText(ds, n)) == Nonzero(negative, ds, n)
  {
    if n <= -6 || n > 21 {
      ReadScientific(negative, ds, n);
    } else if n <= 0 {
      ReadFraction(negative, ds, n);
    } else if |ds| <= n {
      ReadWhole(negative, ds, n);
    } else {
      ReadPointInside(negative, ds, n);
    }
  }

  /** Digits that may stand before a decimal point. */
  predicate LeadsWell(a: seq<nat>) {
    a != [] && AreDigits(a) && (a[0] == 0 ==> |a| == 1)
  }

  lemma MantissaFits(a: seq<nat>, dotted: bool, b: seq<nat>)
    requires LeadsWell(a) && AreDigits(b) && (dotted <==> b != [])
    ensures IsMantissa(Mantissa(a, dotted, b)) && IsUnsigned(Mantissa(a, dotted, b))
  {
    var m := Mantissa(a, dotted, b);
    ReadMantissa(a, dotted, b);
    assert m[..|a|] == DigitText(a) && m[..|m|] == m;
    if dotted {
      assert m[|a| + 1..] == DigitText(b);
    }
  }

  lemma ExponentFits(e: int)
    ensures IsExponent(ExponentText(e)[1..])
  {
    var digits := DigitText(Digits(if e >= 0 then e else -e));
    assert ExponentText(e)[1..] == [if e >= 0 then PLUS else MINUS] + digits;
    assert ExponentText(e)[1..][1..] == digits;
  }

  lemma ScaledFits(a: seq<nat>, dotted: bool, b: seq<nat>, e: int)
    requires LeadsWell(a) && AreDigits(b) && (dotted <==> b != [])
    ensures IsUnsigned(Mantissa(a, dotted, b) + ExponentText(e))
  {
    ReadMantissa(a, dotted, b);
    MantissaFits(a, dotted, b);
    WithExponent(Mantissa(a, dotted, b), e);
  }

  lemma WithExponent(m: Utf16, e: int)
    requires IsMantissa(m) && IndexOf(m, SMALL_E) == |m|
    ensures IsUnsigned(m + ExponentText(e))
  {
    var rest := ExponentText(e)[1..];
    ExponentFits(e);
    ExponentStarts(e);
    PartsFit(m, rest);
    Assoc(m, [SMALL_E], rest);
  }

  lemma ExponentStarts(e: int)
    ensures ExponentText(e) == [SMALL_E] + ExponentText(e)[1..]
  {
  }

  lemma PartsFit(m: Utf16, rest: Utf16)
    requires IsMantissa(m) && IndexOf(m, SMALL_E) == |m| && IsExponent(rest)
    ensures IsUnsigned(m + [SMALL_E] + rest)
  {
    FindUnit(m, SMALL_E, rest);
    var t := m + [SMALL_E] + rest;
    assert t[..|m|] == m && t[|m| + 1..] == rest;
  }

  lemma PositiveFits(ds: seq<nat>, n: int)
    requires Shortest(Nonzero(false, ds, n))
    ensures IsUnsigned(PositiveText(ds, n))
  {
    if n <= -6 || n > 21 {
      ScientificFits(ds, n);
    } else if n <= 0 {
      FractionFits(ds, n);
    } else if |ds| <= n {
      WholeFits(ds, n);
    } else {
      PointFits(ds, n);
    }
  }

  lemma ScientificFits(ds: seq<nat>, n: int)
    requires Shortest(Nonzero(false, ds, n)) && (n <= -6 || n > 21)
    ensures IsUnsigned(PositiveText(ds, n))
  {
    ScientificText(ds, n);
    ScaledFits(ds[..1], |ds| > 1, ds[1..], n - 1);
  }

  lemma FractionFits(ds: seq<nat>, n: int)
    requires Shortest(Nonzero(false, ds, n)) && -6 < n <= 0
    ensures IsUnsigned(PositiveText(ds, n))
  {
    FractionText(ds, n);
    MantissaFits([0], true, Zeros(-n) + ds);
  }

  lemma PointFits(ds: seq<nat>, n: int)
    requires Shortest(Nonzero(false, ds, n)) && 0 < n < |ds| && n <= 21
    ensures IsUnsigned(PositiveText(ds, n))
  {
    MantissaFits(ds[..n], true, ds[n..]);
    Assoc(DigitText(ds[..n]), [DOT], DigitText(ds[n..]));
  }

  lemma WholeFits(ds: seq<nat>, n: int)
    requires Shortest(Nonzero(false, ds, n)) && |ds| <= n <= 21
    ensures IsUnsigned(PositiveText(ds, n))
  {
    var all := ds + Zeros(n - |ds|);
    MantissaFits(all, false, []);
    assert Mantissa(all, false, []) == DigitText(all);
  }

  /** What is printed is a JSON number, down to its leading zeros and empty parts. */
  lemma NumberFits(x: Number)
    requires Shortest(x)
    ensures IsNumberText(ToText(x))
  {
    match x {
      case Zero =>
        MantissaFits([0], false, []);
        assert Mantissa([0], false, []) == [ZERO];
      case Nonzero(negative, digits, point) =>
        assert Shortest(Nonzero(false, digits, point));
        PositiveFits(digits, point);
        var t := PositiveText(digits, point);
        PositiveStarts(digits, point);
        assert ([MINUS] + t)[1..] == t && [] + t == t;
    }
  }

  lemma PositiveStarts(ds: seq<nat>, n: int)
    requires ds != [] && AreDigits(ds)
    ensures PositiveText(ds, n) != [] && IsDigit(PositiveText(ds, n)[0])
  {
    assert |PositiveText(ds, n)| > 0;
    PositiveUnits(ds, n, 0);
  }

  lemma PositiveUnits(ds: seq<nat>, n: int, i: nat)
    requires ds != [] && AreDigits(ds) && i < |PositiveText(ds, n)|
    ensures NumberUnit(PositiveText(ds, n)[i]) && IsDigit(PositiveText(ds, n)[0])
  {
  }

  /** Reading what is printed gives the number back, and what is printed is a JSON number. */
  lemma NumberRoundTrip(x: Number)
    requires Shortest(x)
    ensures Read(ToText(x)) == x
    ensures ToText(x) != [] && (IsDigit(ToText(x)[0]) || ToText(x)[0] == MINUS)
    ensures forall i :: 0 <= i < |ToText(x)| ==> NumberUnit(ToText(x)[i])
    ensures IsNumberText(ToText(x))
  {
    NumberFits(x);
    match x {
      case Zero =>
        assert ReadDigits([ZERO]) == [0] && [0][1..] == [];
        FindNone([ZERO], SMALL_E);
        FindNone([ZERO], DOT);
        assert [ZERO][..1] == [ZERO];
      case Nonzero(negative, digits, point) =>
        var t := PositiveText(digits, point);
        forall i | 0 <= i < |t| ensures NumberUnit(t[i]) && IsDigit(t[0]) { PositiveUnits(digits, point, i); }
        ReadPositiveText(negative, digits, point);
        if negative {
          assert ToText(x)[1..] == t;
        } else {
          assert ToText(x) == t;
        }
    }
  }
}
