/** What the number parser refuses, in terms of values and of the documented format
    (support/dpiUtils.c). */
module NumberLimits {
  import opened Common
  import opened Decimals
  import opened NumberText

  // --------------------------------------------------------------------------------------
  // How large a number is and how many digits it needs
  // --------------------------------------------------------------------------------------

  ghost function Abs(x: real): real { if x < 0.0 then -x else x }

  lemma FractionAtLeast(ds: seq<nat>)
    requires ds != [] && ds[0] != 0
    ensures 10.0 * Fraction(ds) >= 1.0
  {
  }

  lemma TenthTimes(f: real, p: real, q: real)
    requires 10.0 * f >= 1.0 && q == 10.0 * p && p > 0.0
    ensures Times(f, q) >= p
  {
    assert f * q == (10.0 * f) * p >= 1.0 * p;
  }

  /** The decimal point tells the magnitude up to a factor of ten. */
  lemma MagnitudeBounds(d: Decimal)
    requires AllDigits(d.digits) && d.digits != [] && d.digits[0] != 0
    ensures Pow10(d.point - 1) <= Magnitude(d) < Pow10(d.point)
  {
    var f := Fraction(d.digits);
    FractionBelowOne(d.digits);
    TimesLess(f, 1.0, Pow10(d.point));
    TimesUnits(Pow10(d.point));
    FractionAtLeast(d.digits);
    Pow10Step(d.point - 1);
    TenthTimes(f, Pow10(d.point - 1), Pow10(d.point));
  }

  /** A whole number with its decimal point moved. */
  ghost function Shifted(m: nat, j: int): real { Times(m as real, Pow10(j)) }

  /** The number can be written with `k` digits and a power of ten. */
  ghost predicate HasDigits(x: real, k: nat) {
    exists m: nat, j: int :: m as real < Pow10(k) && x == Shifted(m, j)
  }

  lemma {:induction false} WholeBelow(ds: seq<nat>)
    requires AllDigits(ds)
    ensures Whole(ds) as real < Pow10(|ds|)
  {
    if ds != [] {
      WholeBelow(ds[..|ds| - 1]);
      Pow10Step(|ds| - 1);
      NextBelow(Whole(ds[..|ds| - 1]), ds[|ds| - 1], |ds| - 1);
    }
  }

  /** Whole powers of ten. */
  function Ten(n: nat): (p: nat)
    ensures p > 0
  {
    if n == 0 then 1 else 10 * Ten(n - 1)
  }

  lemma {:induction false} TenIsPow10(n: nat)
    ensures Pow10(n) == Ten(n) as real
  {
    if n > 0 {
      TenIsPow10(n - 1);
    }
  }

  lemma NextBelow(w: nat, d: nat, n: nat)
    requires w as real < Pow10(n) && d <= 9
    ensures (10 * w + d) as real < 10.0 * Pow10(n)
  {
    TenIsPow10(n);
    assert w + 1 <= Ten(n);
  }

  lemma {:induction false} WholeAtLeast(ds: seq<nat>)
    requires ds != [] && ds[0] != 0
    ensures Whole(ds) >= Ten(|ds| - 1)
  {
    if |ds| > 1 {
      WholeAtLeast(ds[..|ds| - 1]);
    } else {
      assert ds[..0] == [] && Whole([]) == 0;
    }
  }

  lemma MagnitudeShifted(d: Decimal)
    ensures Magnitude(d) == Shifted(Whole(d.digits), d.point - |d.digits|)
  {
    var n, a := |d.digits|, d.point - |d.digits|;
    var f := Fraction(d.digits);
    WholePlusFraction(d.digits, []);
    assert d.digits + [] == d.digits;
    Pow10Add(a, n);
    TimesAssociative(f, Pow10(n), Pow10(a));
    TimesAssociative(Pow10(n), Pow10(a), 1.0);
    assert Times(f, Pow10(n)) == Whole(d.digits) as real;
  }

  lemma {:induction false} TenAdd(a: nat, b: nat)
    ensures Ten(a + b) == Ten(a) * Ten(b)
  {
    if b > 0 {
      TenAdd(a, b - 1);
      assert Ten(a) * (10 * Ten(b - 1)) == 10 * (Ten(a) * Ten(b - 1));
    }
  }

  lemma CancelTimes(x: real, y: real, p: real)
    requires p > 0.0 && Times(x, p) == Times(y, p)
    ensures x == y
  {
    assert (x - y) * p == 0.0;
  }

  /** Equal shifted numbers, the second with the larger power: the first ends in zeroes. */
  lemma SameShifted(w: nat, a: int, m: nat, j: int)
    requires Shifted(w, a) == Shifted(m, j) && a <= j
    ensures w == m * Ten(j - a)
  {
    Pow10Add(a, j - a);
    TenIsPow10(j - a);
    TimesAssociative(m as real, Pow10(j - a), Pow10(a));
    TimesAssociative(Pow10(j - a), Pow10(a), 1.0);
    CancelTimes(w as real, Times(m as real, Pow10(j - a)), Pow10(a));
    assert Times(m as real, Ten(j - a) as real) == (m * Ten(j - a)) as real;
  }

  lemma TimesTen(m: nat, t: nat)
    ensures (m * (10 * t)) % 10 == 0
  {
    assert m * (10 * t) == 10 * (m * t);
  }

  lemma AtLeastOnce(m: nat, t: nat)
    requires t > 0
    ensures m * t >= m
  {
  }

  /** Digits without a zero at either end are all needed. */
  lemma AllDigitsNeeded(d: Decimal, k: nat)
    requires AllDigits(d.digits) && d.digits != [] && d.digits[0] != 0 && d.digits[|d.digits| - 1] != 0
    ensures HasDigits(Magnitude(d), k) <==> |d.digits| <= k
  {
    var w, a := Whole(d.digits), d.point - |d.digits|;
    MagnitudeShifted(d);
    if |d.digits| <= k {
      WholeBelow(d.digits);
      Pow10Monotone(|d.digits|, k);
      assert Shifted(w, a) == Magnitude(d);
    } else if HasDigits(Magnitude(d), k) {
      var m: nat, j: int :| m as real < Pow10(k) && Magnitude(d) == Shifted(m, j);
      TooFewDigits(d, k, m, j);
    }
  }

  lemma LastDigit(ds: seq<nat>)
    requires AllDigits(ds) && ds != []
    ensures Whole(ds) % 10 == ds[|ds| - 1]
  {
  }

  lemma NotWithSmallerPower(w: nat, a: int, m: nat, j: int)
    requires m < w && j <= a
    ensures Shifted(w, a) != Shifted(m, j)
  {
    if Shifted(w, a) == Shifted(m, j) {
      SameShifted(m, j, w, a);
      AtLeastOnce(w, Ten(a - j));
    }
  }

  lemma NotWithLargerPower(w: nat, a: int, m: nat, j: int)
    requires w % 10 != 0 && a < j
    ensures Shifted(w, a) != Shifted(m, j)
  {
    if Shifted(w, a) == Shifted(m, j) {
      SameShifted(w, a, m, j);
      TimesTen(m, Ten(j - a - 1));
    }
  }

  lemma MoreThan(ds: seq<nat>, k: nat, m: nat)
    requires ds != [] && ds[0] != 0 && |ds| > k && m as real < Pow10(k)
    ensures m < Whole(ds)
  {
    TenIsPow10(k);
    WholeAtLeast(ds);
    TenAdd(k, |ds| - 1 - k);
    AtLeastOnce(Ten(k), Ten(|ds| - 1 - k));
  }

  lemma TooFewDigits(d: Decimal, k: nat, m: nat, j: int)
    requires AllDigits(d.digits) && d.digits != [] && d.digits[0] != 0 && d.digits[|d.digits| - 1] != 0
    requires |d.digits| > k && m as real < Pow10(k)
    ensures Shifted(Whole(d.digits), d.point - |d.digits|) != Shifted(m, j)
  {
    var w, a := Whole(d.digits), d.point - |d.digits|;
    MoreThan(d.digits, k, m);
    LastDigit(d.digits);
    if j <= a {
      NotWithSmallerPower(w, a, m, j);
    } else {
      NotWithLargerPower(w, a, m, j);
    }
  }

  // --------------------------------------------------------------------------------------
  // Refusals
  // --------------------------------------------------------------------------------------

  lemma PointLimits(d: Decimal)
    requires AllDigits(d.digits) && d.digits != [] && d.digits[0] != 0
    ensures d.point > 126 <==> Magnitude(d) >= Pow10(126)
    ensures d.point < -129 <==> Magnitude(d) < Pow10(-130)
  {
    MagnitudeBounds(d);
    if d.point > MAX_POINT {
      Pow10Monotone(MAX_POINT, d.point - 1);
    } else {
      Pow10Monotone(d.point, MAX_POINT);
    }
    if d.point < MIN_POINT {
      Pow10Monotone(d.point, MIN_POINT - 1);
    } else {
      Pow10Monotone(MIN_POINT - 1, d.point - 1);
    }
  }

  lemma NoZerosLeft(ds: seq<nat>)
    requires AllDigits(ds)
    ensures var r := StripTrailing(ds[LeadingZeros(ds)..]);
            AllDigits(r) && (r != [] ==> r[0] != 0 && r[|r| - 1] != 0) && (r == [] <==> LeadingZeros(ds) == |ds|)
  {
    var rest := ds[LeadingZeros(ds)..];
    if rest != [] {
      assert rest[0] != 0;
      assert StripTrailing(rest) != [];
    }
  }

  /** Magnitude and zero: the sign does not matter. */
  lemma AbsValue(d: Decimal)
    ensures Abs(Value(d)) == Magnitude(d)
    ensures d.digits == [] ==> Value(d) == 0.0
  {
    TimesNotNegative(Fraction(d.digits), Pow10(d.point));
    TimesUnits(Pow10(d.point));
  }

  lemma TimesNotNegative(f: real, p: real)
    requires f >= 0.0 && p > 0.0
    ensures Times(f, p) >= 0.0
  {
  }

  lemma RefusedNonZero(d: Decimal)
    requires AllDigits(d.digits) && d.digits != [] && d.digits[0] != 0 && d.digits[|d.digits| - 1] != 0
    ensures Magnitude(d) > 0.0
    ensures !Representable(d)
       <==> !HasDigits(Magnitude(d), MAX_DIGITS) || Magnitude(d) >= Pow10(MAX_POINT) || Magnitude(d) < Pow10(MIN_POINT - 1)
  {
    MagnitudeBounds(d);
    PointLimits(d);
    AllDigitsNeeded(d, MAX_DIGITS);
  }

  /** The decimal of a numeral: its digits begin and end with other digits than zero, and a zero has
      only the exponent and the digits behind the point left. */
  lemma DecimalOf(n: Numeral)
    requires WellFormed(n)
    ensures var d := ToDecimal(n);
            && AllDigits(d.digits)
            && (d.digits != [] ==> d.digits[0] != 0 && d.digits[|d.digits| - 1] != 0)
            && (d.digits == [] ==> d.point == ExponentValue(n.exponent) - |n.fraction|)
            && Abs(NumeralValue(n)) == Magnitude(d) && (d.digits == [] ==> NumeralValue(n) == 0.0)
  {
    assert AllDigits(n.whole + n.fraction);
    NoZerosLeft(n.whole + n.fraction);
    ToDecimalValue(n);
    AbsValue(ToDecimal(n));
  }

  lemma RefusedAs(n: Numeral)
    requires WellFormed(n)
    ensures ParseUnits(Render(n)) == if Representable(ToDecimal(n)) then Parsed(ToDecimal(n)) else NumberNoRepr
  {
    ScanComplete(n);
    ConcludeScanned(ScanNumeral(Render(n)), n);
  }

  /** Which numerals have no representation: of those that are not zero, the ones that need more than
      forty digits, are 1E126 or more, or are below 1E-130. A zero is refused by its exponent and the
      digits behind its point alone. */
  lemma RefusalExact(n: Numeral)
    requires WellFormed(n)
    ensures var x := Abs(NumeralValue(n));
            ParseUnits(Render(n)) == NumberNoRepr
            <==> if x == 0.0 then !(-129 <= ExponentValue(n.exponent) - |n.fraction| <= 126)
                 else !HasDigits(x, 40) || x >= Pow10(126) || x < Pow10(-130)
  {
    var d := ToDecimal(n);
    RefusedAs(n);
    DecimalOf(n);
    if d.digits != [] {
      RefusedNonZero(d);
    }
  }

  /** A zero that is refused: 0e200. */
  lemma ZeroRefused(t: seq<nat>, n: Numeral)
    requires t == [48, 101, 50, 48, 48]
    requires n == Numeral(false, [0], false, [], Exponent(101, [], [2, 0, 0]))
    ensures Render(n) == t && NumeralValue(n) == 0.0 && ParseUnits(t) == NumberNoRepr
  {
    TwoHundred();
    assert Chars([2, 0, 0]) == [NUL + 2, NUL, NUL] && Chars([0]) == [NUL];
    assert Render(n) == t;
    RefusalExact(n);
    WholeZero();
    TimesUnits(Pow10(200));
  }

  lemma WholeZero()
    ensures Whole([0]) == 0
  {
    assert [0][..0] == [];
  }

  /** A number that is too small is refused and does not become zero: 1e-131. */
  lemma TooSmallRefused(t: seq<nat>, n: Numeral)
    requires t == [49, 101, 45, 49, 51, 49]
    requires n == Numeral(false, [1], false, [], Exponent(101, [45], [1, 3, 1]))
    ensures Render(n) == t && 0.0 < NumeralValue(n) < Pow10(-130) && ParseUnits(t) == NumberNoRepr
  {
    TooSmallText(n);
    TooSmallValue(n);
    RefusalExact(n);
  }

  lemma TooSmallText(n: Numeral)
    requires n == Numeral(false, [1], false, [], Exponent(LOWER_E, [MINUS], [1, 3, 1]))
    ensures Render(n) == [NUL + 1, LOWER_E, MINUS, NUL + 1, NUL + 3, NUL + 1]
  {
    assert Chars([1, 3, 1]) == [NUL + 1, NUL + 3, NUL + 1] && Chars([1]) == [NUL + 1];
  }

  lemma TooSmallValue(n: Numeral)
    requires n == Numeral(false, [1], false, [], Exponent(LOWER_E, [MINUS], [1, 3, 1]))
    ensures 0.0 < NumeralValue(n) < Pow10(MIN_POINT - 1)
  {
    Thirteen();
    assert ExponentValue(n.exponent) == -131;
    Pow10Step(-131);
    TimesUnits(Pow10(-131));
  }

  lemma Thirteen()
    ensures Whole([1, 3, 1]) == 131 && Whole([1]) == 1
  {
    assert [1, 3, 1][..2] == [1, 3] && [1, 3][..1] == [1] && [1][..0] == [];
  }

  lemma TwoHundred()
    ensures Whole([2, 0, 0]) == 200
  {
    assert [2, 0, 0][..2] == [2, 0] && [2, 0][..1] == [2] && [2][..0] == [];
  }

  // --------------------------------------------------------------------------------------
  // The documented format
  // --------------------------------------------------------------------------------------

  /** The format that the comment above the parser asks for: digits, at least one of them; behind a
      point at least one more; in an exponent at least one. */
  predicate AsDocumented(n: Numeral) {
    && AllDigits(n.whole) && AllDigits(n.fraction) && n.whole != [] && (n.hasDot <==> n.fraction != [])
    && (n.exponent.Exponent? ==>
          && IsMarker(n.exponent.marker)
          && (n.exponent.sign == [] || n.exponent.sign == [PLUS] || n.exponent.sign == [MINUS])
          && n.exponent.digits != [] && AllDigits(n.exponent.digits))
  }

  ghost predicate Documented(t: seq<nat>) {
    exists n :: AsDocumented(n) && Render(n) == t
  }

  lemma LongExponentScans(e: Exponent)
    requires e.Exponent? && IsMarker(e.marker) && |e.digits| > 3 && AllDigits(e.digits)
    requires e.sign == [] || e.sign == [PLUS] || e.sign == [MINUS]
    ensures ScanExponent(RenderExponent(e)) == LongExponent
  {
    var t, rest := RenderExponent(e), Chars(e.digits);
    assert t[1..] == e.sign + rest;
    assert t[1 + |e.sign|..] == rest;
    CutRun(e.digits, []);
    assert rest + [] == rest;
  }

  /** The text is cut at the right places whatever the exponent is. */
  lemma ScanMantissa(n: Numeral)
    requires AllDigits(n.whole) && AllDigits(n.fraction) && (!n.hasDot ==> n.fraction == [])
    requires n.exponent.Exponent? ==> IsMarker(n.exponent.marker)
    ensures ScanNumeral(Render(n)) == ScanTail(n.negative, n.whole, n.hasDot, n.fraction, RenderExponent(n.exponent))
  {
    var rest := Chars(n.whole) + RenderFraction(n);
    if n.negative {
      assert Render(n)[1..] == rest;
    } else {
      assert Render(n) == rest;
    }
    CutRun(n.whole, RenderFraction(n));
    ScanFractionPart(n);
  }

  lemma ScanFractionPart(n: Numeral)
    requires AllDigits(n.fraction) && (!n.hasDot ==> n.fraction == [])
    requires n.exponent.Exponent? ==> IsMarker(n.exponent.marker)
    ensures ScanFraction(n.negative, n.whole, RenderFraction(n))
         == ScanTail(n.negative, n.whole, n.hasDot, n.fraction, RenderExponent(n.exponent))
  {
    var e := RenderExponent(n.exponent);
    if n.hasDot {
      CutRun(n.fraction, e);
      ScanDot(n.negative, n.whole, Chars(n.fraction) + e);
    } else {
      ScanNoDot(n.negative, n.whole, e);
    }
  }

  lemma DocumentedScans(n: Numeral)
    requires AsDocumented(n)
    ensures ScanNumeral(Render(n)) == if WellFormed(n) then Scanned(n) else LongExponent
  {
    if WellFormed(n) {
      ScanComplete(n);
    } else {
      ScanMantissa(n);
      LongExponentScans(n.exponent);
    }
  }

  /** Text in the documented format is never refused as invalid, and what is accepted has that format
      exactly if there is a digit in front of the point and, where there is a point, one behind it. */
  lemma DocumentedExact(t: seq<nat>)
    ensures Documented(t) ==> ParseUnits(t) != InvalidNumber
    ensures ScanNumeral(t).Scanned? ==>
              var n := ScanNumeral(t).value;
              Documented(t) <==> n.whole != [] && (n.hasDot ==> n.fraction != [])
  {
    if Documented(t) {
      var n :| AsDocumented(n) && Render(n) == t;
      DocumentedScans(n);
    }
    if ScanNumeral(t).Scanned? {
      var n := ScanNumeral(t).value;
      ScanSound(t);
      if n.whole != [] && (n.hasDot ==> n.fraction != []) {
        assert AsDocumented(n) && Render(n) == t;
      }
    }
  }

  lemma Accepts(n: Numeral, t: seq<nat>)
    requires WellFormed(n) && Representable(ToDecimal(n)) && Render(n) == t
    ensures ParseUnits(t) == Parsed(ToDecimal(n))
  {
    RefusedAs(n);
  }

  lemma NotDocumented(n: Numeral, t: seq<nat>)
    requires WellFormed(n) && Render(n) == t && (n.whole == [] || (n.hasDot && n.fraction == []))
    ensures !Documented(t)
  {
    ScanComplete(n);
    DocumentedExact(t);
  }

  lemma MinusAccepted(t: seq<nat>)
    requires t == [MINUS]
    ensures ParseUnits(t) == Parsed(Decimal(true, 0, [])) && !Documented(t)
  {
    var n := Numeral(true, [], false, [], NoExponent);
    assert Render(n) == t;
    Accepts(n, t);
    NotDocumented(n, t);
  }

  lemma PointAccepted(t: seq<nat>)
    requires t == [DOT]
    ensures ParseUnits(t) == Parsed(Decimal(false, 0, [])) && !Documented(t)
  {
    var n := Numeral(false, [], true, [], NoExponent);
    assert Render(n) == t;
    Accepts(n, t);
    NotDocumented(n, t);
  }

  lemma OnePointAccepted(t: seq<nat>)
    requires t == [NUL + 1, DOT]
    ensures ParseUnits(t) == Parsed(Decimal(false, 1, [1])) && !Documented(t)
  {
    var n := Numeral(false, [1], true, [], NoExponent);
    assert Render(n) == t;
    assert [1] + [] == [1];
    Accepts(n, t);
    NotDocumented(n, t);
  }

  /** Three texts that are accepted without having the documented format: "-", "." and "1.". */
  lemma AcceptedUndocumented(minus: seq<nat>, point: seq<nat>, onePoint: seq<nat>)
    requires minus == [45] && point == [46] && onePoint == [49, 46]
    ensures ParseUnits(minus).Parsed? && !Documented(minus)
    ensures ParseUnits(point).Parsed? && !Documented(point)
    ensures ParseUnits(onePoint).Parsed? && !Documented(onePoint)
  {
    MinusAccepted(minus);
    PointAccepted(point);
    OnePointAccepted(onePoint);
  }
}
