/** Exact decimal values: what a sign, a decimal point index and a list of digits denote. */
module Decimals {

  /** A digit of a base-10 number, most significant first in every sequence below. */
  predicate AllDigits(ds: seq<nat>) {
    forall i :: 0 <= i < |ds| ==> ds[i] <= 9
  }

  /** A sign, the digits of the number and the position of the decimal point in them:
      the number is 0.d1d2d3... times ten to the power `point`. */
  datatype Decimal = Decimal(negative: bool, point: int, digits: seq<nat>)

  const MAX_DIGITS := 40
  const MAX_POINT := 126
  const MIN_POINT := -129

  /** The decimals that the number string parser hands on. */
  predicate Normalised(d: Decimal) {
    && AllDigits(d.digits)
    && |d.digits| <= MAX_DIGITS
    && MIN_POINT <= d.point <= MAX_POINT
    && (d.digits != [] ==> d.digits[0] != 0 && d.digits[|d.digits| - 1] != 0)
  }

  ghost function Pow10(k: int): (p: real)
    ensures p > 0.0
    decreases if k < 0 then -k else k
  {
    if k == 0 then 1.0
    else if k > 0 then 10.0 * Pow10(k - 1)
    else Pow10(k + 1) / 10.0
  }

  /** The value of 0.d1d2d3... */
  ghost function Fraction(ds: seq<nat>): (f: real)
    ensures f >= 0.0
  {
    if ds == [] then 0.0 else (ds[0] as real + Fraction(ds[1..])) / 10.0
  }

  /** The value of d1d2d3... read as a whole number. */
  function Whole(ds: seq<nat>): (w: nat) {
    if ds == [] then 0 else 10 * Whole(ds[..|ds| - 1]) + ds[|ds| - 1]
  }

  /** A product of reals; naming it keeps the solver's non-linear arithmetic out of proofs that
      only need to know that two products have the same factors. */
  ghost function Times(x: real, y: real): real { x * y }

  ghost function Magnitude(d: Decimal): real {
    Times(Fraction(d.digits), Pow10(d.point))
  }

  ghost function Signed(negative: bool, x: real): real {
    if negative then -x else x
  }

  ghost function Value(d: Decimal): real {
    Signed(d.negative, Magnitude(d))
  }

  lemma Pow10Step(k: int)
    ensures Pow10(k + 1) == 10.0 * Pow10(k)
  {
  }

  // Multiplying by ten can be done on either factor of a product.

  lemma ScaleFactor(f: real, g: real, p: real, q: real)
    requires f == 10.0 * g && q == 10.0 * p
    ensures Times(g, q) == Times(f, p)
  {
    assert g * (10.0 * p) == (10.0 * g) * p;
  }

  lemma ScaleProduct(f: real, p: real, q: real)
    requires q == 10.0 * p
    ensures Times(f, q) == 10.0 * Times(f, p)
  {
    assert f * (10.0 * p) == 10.0 * (f * p);
  }

  lemma TimesLess(f: real, g: real, p: real)
    requires f < g && p > 0.0
    ensures Times(f, p) < Times(g, p)
  {
  }

  lemma TimesUnits(p: real)
    ensures Times(0.0, p) == 0.0 && Times(1.0, p) == p && Times(p, 1.0) == p
  {
  }

  lemma {:induction false} Pow10Monotone(j: int, k: int)
    requires j <= k
    ensures Pow10(j) <= Pow10(k)
    decreases k - j
  {
    if j < k {
      Pow10Monotone(j, k - 1);
      Pow10Step(k - 1);
    }
  }

  lemma {:induction false} FractionBelowOne(ds: seq<nat>)
    requires AllDigits(ds)
    ensures Fraction(ds) < 1.0
  {
    if ds != [] {
      FractionBelowOne(ds[1..]);
    }
  }

  lemma {:induction false} FractionAppendZero(ds: seq<nat>)
    ensures Fraction(ds + [0]) == Fraction(ds)
  {
    if ds == [] {
      assert (ds + [0])[1..] == [];
    } else {
      assert (ds + [0])[1..] == ds[1..] + [0];
      FractionAppendZero(ds[1..]);
    }
  }

  /** A leading zero divides the fraction by ten. */
  lemma FractionPrependZero(ds: seq<nat>)
    ensures Fraction([0] + ds) == Fraction(ds) / 10.0
  {
    assert ([0] + ds)[1..] == ds;
  }

  /** A leading zero together with one step of the decimal point changes nothing. */
  lemma ShiftPoint(ds: seq<nat>, k: int)
    ensures Times(Fraction([0] + ds), Pow10(k + 1)) == Times(Fraction(ds), Pow10(k))
  {
    FractionPrependZero(ds);
    Pow10Step(k);
    ScaleFactor(Fraction(ds), Fraction([0] + ds), Pow10(k), Pow10(k + 1));
  }

  /** Digits before and after a decimal point: the whole part plus the fraction part. */
  lemma {:induction false} WholePlusFraction(ws: seq<nat>, fs: seq<nat>)
    ensures Whole(ws) as real + Fraction(fs) == Times(Fraction(ws + fs), Pow10(|ws|))
    decreases |ws|
  {
    if ws == [] {
      assert ws + fs == fs;
      TimesUnits(Fraction(fs));
    } else {
      var n := |ws| - 1;
      var front, d := ws[..n], ws[n];
      WholePlusFraction(front, [d] + fs);
      assert front + ([d] + fs) == ws + fs;
      assert Whole(ws) as real + Fraction(fs) == 10.0 * (Whole(front) as real + Fraction([d] + fs)) by {
        assert ([d] + fs)[1..] == fs;
      }
      Pow10Step(n);
      ScaleProduct(Fraction(ws + fs), Pow10(n), Pow10(n + 1));
    }
  }
}
