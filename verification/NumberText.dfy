/** Numbers as text: what a numeral denotes, the parser and the printer
    (support/dpiUtils.c and support/dpiData.c). */
module NumberText {
  import opened Common
  import opened Decimals

  // Code units of the characters that can occur in a number.
  const MINUS := 45
  const PLUS := 43
  const DOT := 46
  const NUL := 48
  const UPPER_E := 69
  const LOWER_E := 101

  const TEXT_CHARS := 172

  function Chars(ds: seq<nat>): (t: seq<nat>)
    ensures |t| == |ds|
  {
    seq(|ds|, i requires 0 <= i < |ds| => NUL + ds[i])
  }

  function Zeros(n: nat): (ds: seq<nat>)
    ensures |ds| == n
  {
    seq(n, i => 0)
  }

  // --------------------------------------------------------------------------------------
  // The grammar of numbers and what they denote
  // --------------------------------------------------------------------------------------

  datatype Exponent = NoExponent | Exponent(marker: nat, sign: seq<nat>, digits: seq<nat>)

  /** A number as it is written: digits before the point, digits behind it, an exponent. */
  datatype Numeral = Numeral(negative: bool, whole: seq<nat>, hasDot: bool, fraction: seq<nat>, exponent: Exponent)

  predicate WellFormedExponent(e: Exponent) {
    e.Exponent? ==>
      && (e.marker == UPPER_E || e.marker == LOWER_E)
      && (e.sign == [] || e.sign == [PLUS] || e.sign == [MINUS])
      && 1 <= |e.digits| <= 3 && AllDigits(e.digits)
  }

  predicate WellFormed(n: Numeral) {
    && AllDigits(n.whole) && AllDigits(n.fraction)
    && (!n.hasDot ==> n.fraction == [])
    && WellFormedExponent(n.exponent)
  }

  function RenderExponent(e: Exponent): seq<nat> {
    match e
    case NoExponent => []
    case Exponent(marker, sign, digits) => [marker] + (sign + Chars(digits))
  }

  function RenderFraction(n: Numeral): seq<nat> {
    var e := RenderExponent(n.exponent);
    if n.hasDot then [DOT] + (Chars(n.fraction) + e) else e
  }

  function Render(n: Numeral): seq<nat> {
    (if n.negative then [MINUS] else []) + (Chars(n.whole) + RenderFraction(n))
  }

  function ExponentValue(e: Exponent): int {
    match e
    case NoExponent => 0
    case Exponent(_, sign, digits) => if sign == [MINUS] then -(Whole(digits) as int) else Whole(digits)
  }

  /** The characters 0 to 9 are the codes from 48 on. */
  function Codes(ds: seq<nat>): (t: seq<nat>)
    ensures |t| == |ds|
  {
    seq(|ds|, i requires 0 <= i < |ds| => 48 + ds[i])
  }

  lemma CharsAreCodes(ds: seq<nat>)
    ensures Chars(ds) == Codes(ds)
  {
  }

  lemma Flat(a: seq<nat>, b: seq<nat>, c: seq<nat>, d: seq<nat>)
    ensures a + (b + (c + d)) == a + b + c + d
  {
  }

  /** How an exponent is written, character by character, and what it counts for. */
  lemma ExponentWrittenOut(e: Exponent)
    requires e.Exponent? && WellFormedExponent(e)
    ensures e.marker == 69 || e.marker == 101
    ensures e.sign == [] || e.sign == [43] || e.sign == [45]
    ensures |e.digits| in {1, 2, 3}
    ensures RenderExponent(e) == [e.marker] + e.sign + Codes(e.digits)
    ensures ExponentValue(e) == if e.sign == [45] then -(Whole(e.digits) as int) else Whole(e.digits)
  {
    CharsAreCodes(e.digits);
    assert [e.marker] + (e.sign + Codes(e.digits)) == [e.marker] + e.sign + Codes(e.digits);
  }

  /** How a numeral is written. */
  lemma NumeralWrittenOut(n: Numeral)
    requires WellFormed(n)
    ensures Render(n) == (if n.negative then [45] else []) + Codes(n.whole)
                         + (if n.hasDot then [46] + Codes(n.fraction) else []) + RenderExponent(n.exponent)
  {
    var e, sign := RenderExponent(n.exponent), if n.negative then [45] else [];
    CharsAreCodes(n.whole);
    CharsAreCodes(n.fraction);
    if n.hasDot {
      assert [46] + (Codes(n.fraction) + e) == ([46] + Codes(n.fraction)) + e;
      Flat(sign, Codes(n.whole), [46] + Codes(n.fraction), e);
    } else {
      assert [] + e == e;
      Flat(sign, Codes(n.whole), [], e);
    }
  }

  /** The value of a numeral. */
  ghost function NumeralValue(n: Numeral): real {
    Signed(n.negative, Times(Whole(n.whole) as real + Fraction(n.fraction), Pow10(ExponentValue(n.exponent))))
  }

  // --------------------------------------------------------------------------------------
  // Recognising numerals
  // --------------------------------------------------------------------------------------

  predicate IsDigit(c: nat) { NUL <= c <= NUL + 9 }

  /** The length of the longest prefix of `t` that consists of digits. */
  function DigitRun(t: seq<nat>): (n: nat)
    ensures n <= |t|
    ensures forall i :: 0 <= i < n ==> IsDigit(t[i])
    ensures n < |t| ==> !IsDigit(t[n])
  {
    if t == [] || !IsDigit(t[0]) then 0 else 1 + DigitRun(t[1..])
  }

  function DigitsOf(t: seq<nat>): (ds: seq<nat>)
    requires forall i :: 0 <= i < |t| ==> IsDigit(t[i])
    ensures |ds| == |t| && AllDigits(ds) && Chars(ds) == t
  {
    seq(|t|, i requires 0 <= i < |t| => DigitOf(t[i]))
  }

  function DigitOf(c: nat): (d: nat)
    ensures IsDigit(c) ==> d <= 9 && NUL + d == c
  {
    if IsDigit(c) then c - NUL else 0
  }

  /** The leading digits of a text and what comes behind them. */
  function LeadDigits(t: seq<nat>): (ds: seq<nat>)
    ensures AllDigits(ds) && |ds| == DigitRun(t)
  {
    DigitsOf(t[..DigitRun(t)])
  }

  function AfterDigits(t: seq<nat>): (u: seq<nat>)
    ensures u != [] ==> !IsDigit(u[0])
  {
    t[DigitRun(t)..]
  }

  lemma CutDigits(t: seq<nat>)
    ensures Chars(LeadDigits(t)) + AfterDigits(t) == t
  {
    assert t == t[..DigitRun(t)] + t[DigitRun(t)..];
  }

  datatype Scan<T> = Malformed | LongExponent | Scanned(value: T)

  predicate IsMarker(c: nat) { c == UPPER_E || c == LOWER_E }

  function ExponentSign(t: seq<nat>): (sign: seq<nat>)
    requires t != []
    ensures |sign| < |t|
    ensures sign == [] || sign == [PLUS] || sign == [MINUS]
    ensures sign == t[1..1 + |sign|]
  {
    if |t| > 1 && (t[1] == PLUS || t[1] == MINUS) then [t[1]] else []
  }

  function ScanExponent(t: seq<nat>): Scan<Exponent> {
    if t == [] then Scanned(NoExponent)
    else if !IsMarker(t[0]) then Malformed
    else
      var sign := ExponentSign(t);
      var rest := t[1 + |sign|..];
      var digits := LeadDigits(rest);
      if |digits| > 3 then LongExponent
      else if digits == [] || AfterDigits(rest) != [] then Malformed
      else Scanned(Exponent(t[0], sign, digits))
  }

  function ScanTail(negative: bool, whole: seq<nat>, hasDot: bool, fraction: seq<nat>, t: seq<nat>): Scan<Numeral> {
    match ScanExponent(t)
    case Malformed => Malformed
    case LongExponent => LongExponent
    case Scanned(e) => Scanned(Numeral(negative, whole, hasDot, fraction, e))
  }

  function ScanFraction(negative: bool, whole: seq<nat>, t: seq<nat>): Scan<Numeral> {
    if t != [] && t[0] == DOT then
      ScanTail(negative, whole, true, LeadDigits(t[1..]), AfterDigits(t[1..]))
    else
      ScanTail(negative, whole, false, [], t)
  }

  predicate HasMinus(t: seq<nat>) { t != [] && t[0] == MINUS }

  function AfterMinus(t: seq<nat>): seq<nat> {
    if HasMinus(t) then t[1..] else t
  }

  function ScanNumeral(t: seq<nat>): Scan<Numeral> {
    var rest := AfterMinus(t);
    ScanFraction(HasMinus(t), LeadDigits(rest), AfterDigits(rest))
  }

  lemma {:induction false} RunOfChars(ds: seq<nat>, t: seq<nat>)
    requires AllDigits(ds) && (t == [] || !IsDigit(t[0]))
    ensures DigitRun(Chars(ds) + t) == |ds|
  {
    if ds == [] {
      assert Chars(ds) + t == t;
    } else {
      RunOfChars(ds[1..], t);
      assert (Chars(ds) + t)[1..] == Chars(ds[1..]) + t;
    }
  }

  /** Cutting text at the end of its leading digits. */
  lemma CutRun(ds: seq<nat>, t: seq<nat>)
    requires AllDigits(ds) && (t == [] || !IsDigit(t[0]))
    ensures LeadDigits(Chars(ds) + t) == ds && AfterDigits(Chars(ds) + t) == t
  {
    RunOfChars(ds, t);
    var u := Chars(ds) + t;
    assert u[..|ds|] == Chars(ds);
  }

  lemma ScanExponentComplete(e: Exponent)
    requires WellFormedExponent(e)
    ensures ScanExponent(RenderExponent(e)) == Scanned(e)
  {
    if e.Exponent? {
      var t := RenderExponent(e);
      var rest := Chars(e.digits);
      assert t[1..] == e.sign + rest;
      assert t[1 + |e.sign|..] == rest;
      CutRun(e.digits, []);
      assert rest + [] == rest;
    }
  }

  lemma ScanFractionComplete(n: Numeral)
    requires WellFormed(n)
    ensures ScanFraction(n.negative, n.whole, RenderFraction(n)) == Scanned(n)
  {
    var e := RenderExponent(n.exponent);
    ScanExponentComplete(n.exponent);
    if n.hasDot {
      CutRun(n.fraction, e);
      ScanDot(n.negative, n.whole, Chars(n.fraction) + e);
    } else {
      ScanNoDot(n.negative, n.whole, e);
    }
  }

  lemma ScanDot(negative: bool, whole: seq<nat>, t: seq<nat>)
    ensures ScanFraction(negative, whole, [DOT] + t) == ScanTail(negative, whole, true, LeadDigits(t), AfterDigits(t))
  {
    assert ([DOT] + t)[1..] == t;
  }

  lemma ScanNoDot(negative: bool, whole: seq<nat>, t: seq<nat>)
    requires t == [] || t[0] != DOT
    ensures ScanFraction(negative, whole, t) == ScanTail(negative, whole, false, [], t)
  {
  }

  /** Every well-formed numeral is recognised as itself, so the grammar is unambiguous. */
  lemma ScanComplete(n: Numeral)
    requires WellFormed(n)
    ensures ScanNumeral(Render(n)) == Scanned(n)
  {
    var rest := Chars(n.whole) + RenderFraction(n);
    if n.negative {
      assert Render(n)[1..] == rest;
    } else {
      assert Render(n) == rest;
    }
    CutRun(n.whole, RenderFraction(n));
    ScanFractionComplete(n);
  }

  lemma ScanExponentSound(t: seq<nat>)
    ensures ScanExponent(t).Scanned? ==>
              WellFormedExponent(ScanExponent(t).value) && RenderExponent(ScanExponent(t).value) == t
  {
    if ScanExponent(t).Scanned? && t != [] {
      var sign := ExponentSign(t);
      var rest := t[1 + |sign|..];
      CutDigits(rest);
      assert Chars(LeadDigits(rest)) + [] == rest;
      assert t == [t[0]] + (sign + rest);
    }
  }

  lemma ScanFractionSound(negative: bool, whole: seq<nat>, t: seq<nat>)
    requires AllDigits(whole)
    ensures ScanFraction(negative, whole, t).Scanned? ==>
              var n := ScanFraction(negative, whole, t).value;
              WellFormed(n) && n.negative == negative && n.whole == whole && RenderFraction(n) == t
  {
    if t != [] && t[0] == DOT {
      CutDigits(t[1..]);
      ScanExponentSound(AfterDigits(t[1..]));
      assert t == [DOT] + t[1..];
    } else {
      ScanExponentSound(t);
    }
  }

  lemma ScanSound(t: seq<nat>)
    ensures ScanNumeral(t).Scanned? ==> WellFormed(ScanNumeral(t).value) && Render(ScanNumeral(t).value) == t
  {
    var rest := AfterMinus(t);
    assert t == (if HasMinus(t) then [MINUS] else []) + rest;
    CutDigits(rest);
    ScanFractionSound(HasMinus(t), LeadDigits(rest), AfterDigits(rest));
  }

  /** The texts that are recognised are exactly the renderings of well-formed numerals. */
  lemma ScanIffNumeral(t: seq<nat>, n: Numeral)
    ensures ScanNumeral(t) == Scanned(n) <==> WellFormed(n) && Render(n) == t
  {
    if WellFormed(n) && Render(n) == t {
      ScanComplete(n);
    }
    if ScanNumeral(t) == Scanned(n) {
      ScanSound(t);
    }
  }

  // --------------------------------------------------------------------------------------
  // From numerals to decimals
  // --------------------------------------------------------------------------------------

  function LeadingZeros(ds: seq<nat>): (n: nat)
    ensures n <= |ds|
    ensures n < |ds| ==> ds[n] != 0
    ensures forall i :: 0 <= i < n ==> ds[i] == 0
  {
    if ds == [] || ds[0] != 0 then 0 else 1 + LeadingZeros(ds[1..])
  }

  function StripTrailing(ds: seq<nat>): (r: seq<nat>)
    ensures r <= ds
    ensures r != [] ==> r[|r| - 1] != 0
    ensures forall i :: |r| <= i < |ds| ==> ds[i] == 0
  {
    if ds == [] || ds[|ds| - 1] != 0 then ds else StripTrailing(ds[..|ds| - 1])
  }

  /** The decimal that a numeral stands for: the digits before and behind the point without
      the zeroes at either end. */
  function ToDecimal(n: Numeral): Decimal {
    var all := n.whole + n.fraction;
    var z := LeadingZeros(all);
    Decimal(n.negative, |n.whole| - z + ExponentValue(n.exponent), StripTrailing(all[z..]))
  }

  predicate Representable(d: Decimal) {
    |d.digits| <= MAX_DIGITS && MIN_POINT <= d.point <= MAX_POINT
  }

  datatype ParseResult =
    | Parsed(decimal: Decimal)
    | InvalidNumber
    | NumberStringTooLong
    | NotSupported
    | NumberNoRepr

  function ParseUnits(t: seq<nat>): ParseResult {
    Conclude(ScanNumeral(t))
  }

  function Conclude(scan: Scan<Numeral>): ParseResult {
    match scan
    case Malformed => InvalidNumber
    case LongExponent => NotSupported
    case Scanned(n) => if Representable(ToDecimal(n)) then Parsed(ToDecimal(n)) else NumberNoRepr
  }

  lemma {:induction false} FractionSkipZeros(ds: seq<nat>, z: nat)
    requires z <= |ds| && forall i :: 0 <= i < z ==> ds[i] == 0
    ensures Times(Fraction(ds), Pow10(z)) == Fraction(ds[z..])
  {
    if z == 0 {
      assert ds[0..] == ds;
      TimesUnits(Fraction(ds));
    } else {
      FractionSkipZeros(ds[1..], z - 1);
      assert ds[1..][z - 1..] == ds[z..];
      assert ds == [0] + ds[1..];
      ShiftPoint(ds[1..], z - 1);
    }
  }

  lemma {:induction false} FractionStrip(ds: seq<nat>)
    ensures Fraction(StripTrailing(ds)) == Fraction(ds)
  {
    if ds != [] && ds[|ds| - 1] == 0 {
      FractionStrip(ds[..|ds| - 1]);
      FractionAppendZero(ds[..|ds| - 1]);
      assert ds[..|ds| - 1] + [0] == ds;
    }
  }

  lemma {:induction false} Pow10Add(j: int, k: nat)
    ensures Pow10(j + k) == Times(Pow10(j), Pow10(k))
  {
    if k == 0 {
      TimesUnits(Pow10(j));
    } else {
      Pow10Add(j, k - 1);
      Pow10Step(j + k - 1);
      Pow10Step(k - 1);
      ScaleProduct(Pow10(j), Pow10(k - 1), Pow10(k));
    }
  }

  lemma TimesAssociative(x: real, y: real, z: real)
    ensures Times(Times(x, y), z) == Times(x, Times(y, z))
    ensures Times(x, y) == Times(y, x)
  {
    assert (x * y) * z == x * (y * z);
  }

  /** Leading zeroes move the decimal point and nothing else. */
  lemma SkipZerosMagnitude(ds: seq<nat>, z: nat, w: nat, e: int)
    requires z <= |ds| && forall i :: 0 <= i < z ==> ds[i] == 0
    ensures Times(Fraction(ds[z..]), Pow10(w - z + e)) == Times(Times(Fraction(ds), Pow10(w)), Pow10(e))
  {
    var f, a := Fraction(ds), w - z + e;
    FractionSkipZeros(ds, z);
    TimesAssociative(f, Pow10(z), Pow10(a));
    TimesAssociative(Pow10(a), Pow10(z), 1.0);
    Pow10Add(a, z);
    TimesAssociative(f, Pow10(w), Pow10(e));
    TimesAssociative(Pow10(e), Pow10(w), 1.0);
    Pow10Add(e, w);
  }

  /** The decimal has the value of the numeral. */
  lemma ToDecimalValue(n: Numeral)
    ensures Value(ToDecimal(n)) == NumeralValue(n)
  {
    var all, e := n.whole + n.fraction, ExponentValue(n.exponent);
    var z := LeadingZeros(all);
    FractionStrip(all[z..]);
    SkipZerosMagnitude(all, z, |n.whole|, e);
    WholePlusFraction(n.whole, n.fraction);
  }

  lemma ToDecimalNormalised(n: Numeral)
    requires WellFormed(n) && Representable(ToDecimal(n))
    ensures Normalised(ToDecimal(n))
  {
    var all := n.whole + n.fraction;
    assert AllDigits(all);
    var rest := all[LeadingZeros(all)..];
    assert AllDigits(rest);
    assert StripTrailing(rest) != [] ==> StripTrailing(rest)[0] == rest[0];
  }

  /** Parsing preserves the value and normalises: whatever text is accepted is a well-formed
      numeral with the value of the decimal that is handed on. */
  lemma ParseCorrect(t: seq<nat>)
    ensures ParseUnits(t).Parsed? ==>
              && ScanNumeral(t).Scanned?
              && Normalised(ParseUnits(t).decimal)
              && Render(ScanNumeral(t).value) == t
              && Value(ParseUnits(t).decimal) == NumeralValue(ScanNumeral(t).value)
  {
    if ParseUnits(t).Parsed? {
      ScanSound(t);
      ToDecimalValue(ScanNumeral(t).value);
      ToDecimalNormalised(ScanNumeral(t).value);
    }
  }

  // --------------------------------------------------------------------------------------
  // Printing
  // --------------------------------------------------------------------------------------

  /** The digits in front of the decimal point and behind it. */
  function PrintedNumeral(d: Decimal): Numeral {
    var n := |d.digits|;
    if d.point <= 0 then Numeral(d.negative, [0], true, Zeros(-d.point) + d.digits, NoExponent)
    else if d.point < n then Numeral(d.negative, d.digits[..d.point], true, d.digits[d.point..], NoExponent)
    else Numeral(d.negative, d.digits + Zeros(d.point - n), false, [], NoExponent)
  }

  function Text(d: Decimal): seq<nat> {
    Render(PrintedNumeral(d))
  }

  /** The number of characters as the printer computes it beforehand. */
  function TextSize(d: Decimal): int {
    var n := |d.digits|;
    n + (if d.negative then 1 else 0)
    + if d.point <= 0 then -d.point + 2
      else if d.point < n then 1
      else d.point - n
  }

  lemma TextLength(d: Decimal)
    ensures |Text(d)| == TextSize(d)
  {
  }

  /** Every normalised number and the two special results of the decoder fit in the text buffer,
      and the bound is reached. */
  lemma TextFits(d: Decimal)
    requires |d.digits| <= 40 && -129 <= d.point <= 127
    ensures |Text(d)| <= 172
    ensures |Text(d)| == 172 <==> d.negative && |d.digits| == 40 && d.point == -129
  {
    TextLength(d);
  }

  /** The text of a number, written out: zero and a point in front of digits that all lie behind it, or a
      point between them, or zeroes behind them. */
  lemma TextWrittenOut(d: Decimal)
    ensures Text(d) == (if d.negative then [45] else [])
                       + if d.point <= 0 then [48] + [46] + seq(-d.point, _ => 48) + Codes(d.digits)
                         else if d.point < |d.digits| then Codes(d.digits)[..d.point] + [46] + Codes(d.digits)[d.point..]
                         else Codes(d.digits) + seq(d.point - |d.digits|, _ => 48)
  {
    if d.point <= 0 {
      SmallWrittenOut(d);
    } else {
      LargeWrittenOut(d);
    }
  }

  lemma SmallWrittenOut(d: Decimal)
    requires d.point <= 0
    ensures Text(d) == (if d.negative then [45] else []) + ([48] + [46] + seq(-d.point, _ => 48) + Codes(d.digits))
  {
    var zeros, fraction := Zeros(-d.point), Zeros(-d.point) + d.digits;
    CharsAreCodes([0]);
    CharsAreCodes(fraction);
    assert Codes(fraction) == seq(-d.point, _ => 48) + Codes(d.digits) && Codes([0]) == [48];
    assert Codes(fraction) + [] == Codes(fraction);
    Flat([48], [46], seq(-d.point, _ => 48), Codes(d.digits));
  }

  lemma LargeWrittenOut(d: Decimal)
    requires d.point > 0
    ensures Text(d) == (if d.negative then [45] else [])
                       + if d.point < |d.digits| then Codes(d.digits)[..d.point] + [46] + Codes(d.digits)[d.point..]
                         else Codes(d.digits) + seq(d.point - |d.digits|, _ => 48)
  {
    var n := |d.digits|;
    if d.point < n {
      var whole, fraction := d.digits[..d.point], d.digits[d.point..];
      CharsAreCodes(whole);
      CharsAreCodes(fraction);
      assert Codes(whole) == Codes(d.digits)[..d.point] && Codes(fraction) == Codes(d.digits)[d.point..];
      assert Codes(fraction) + [] == Codes(fraction);
      assert Codes(whole) + ([46] + Codes(fraction)) == Codes(whole) + [46] + Codes(fraction);
    } else {
      var whole := d.digits + Zeros(d.point - n);
      CharsAreCodes(whole);
      assert Codes(whole) == Codes(d.digits) + seq(d.point - n, _ => 48) && Codes(whole) + [] == Codes(whole);
    }
  }

  /** Taking the zeroes off both ends. */
  lemma TrimZeros(k: nat, ds: seq<nat>, j: nat)
    requires ds != [] && ds[0] != 0 && ds[|ds| - 1] != 0
    ensures var all := Zeros(k) + (ds + Zeros(j));
            LeadingZeros(all) == k && StripTrailing(all[LeadingZeros(all)..]) == ds
  {
    var all := Zeros(k) + (ds + Zeros(j));
    assert all[k] == ds[0];
    assert all[k..] == ds + Zeros(j);
    StripZeros(ds, j);
  }

  /** How many zeroes the printer adds in front of the digits and behind them. */
  function ZerosBefore(d: Decimal): nat { if d.point <= 0 then 1 - d.point else 0 }

  function ZerosAfter(d: Decimal): nat { if d.point > 0 && d.point > |d.digits| then d.point - |d.digits| else 0 }

  lemma PrintedDigits(d: Decimal)
    ensures var n := PrintedNumeral(d);
            && n.whole + n.fraction == Zeros(ZerosBefore(d)) + (d.digits + Zeros(ZerosAfter(d)))
            && |n.whole| == d.point + ZerosBefore(d)
            && (AllDigits(d.digits) ==> WellFormed(n))
  {
  }

  lemma {:induction false} StripZeros(ds: seq<nat>, k: nat)
    requires ds != [] && ds[|ds| - 1] != 0
    ensures StripTrailing(ds + Zeros(k)) == ds
  {
    if k == 0 {
      assert ds + Zeros(0) == ds;
    } else {
      StripZeros(ds, k - 1);
      assert (ds + Zeros(k))[..|ds| + k - 1] == ds + Zeros(k - 1);
    }
  }

  /** A numeral whose digits are `ds` between zeroes. */
  lemma BetweenZeros(n: Numeral, k: nat, ds: seq<nat>, j: nat)
    requires n.exponent == NoExponent && n.whole + n.fraction == Zeros(k) + (ds + Zeros(j))
    requires ds != [] && ds[0] != 0 && ds[|ds| - 1] != 0
    ensures ToDecimal(n) == Decimal(n.negative, |n.whole| - k, ds)
  {
    TrimZeros(k, ds, j);
  }

  lemma PrintedDecimal(d: Decimal)
    requires Normalised(d) && d.digits != []
    ensures WellFormed(PrintedNumeral(d)) && ToDecimal(PrintedNumeral(d)) == d
  {
    PrintedDigits(d);
    BetweenZeros(PrintedNumeral(d), ZerosBefore(d), d.digits, ZerosAfter(d));
  }

  /** The printed text denotes the number, for every sign and position of the decimal point. */
  lemma TextValue(d: Decimal)
    requires Normalised(d) && d.digits != []
    ensures NumeralValue(PrintedNumeral(d)) == Value(d)
  {
    PrintedDecimal(d);
    ToDecimalValue(PrintedNumeral(d));
  }

  lemma ConcludeScanned(scan: Scan<Numeral>, n: Numeral)
    requires scan == Scanned(n)
    ensures Conclude(scan) == if Representable(ToDecimal(n)) then Parsed(ToDecimal(n)) else NumberNoRepr
  {
  }

  lemma ParseScanned(t: seq<nat>, n: Numeral)
    ensures ScanNumeral(t) == Scanned(n) && Representable(ToDecimal(n)) ==> ParseUnits(t) == Parsed(ToDecimal(n))
  {
    if ScanNumeral(t) == Scanned(n) {
      ConcludeScanned(ScanNumeral(t), n);
    }
  }

  lemma ScanText(d: Decimal)
    requires Normalised(d) && d.digits != []
    ensures ScanNumeral(Text(d)) == Scanned(PrintedNumeral(d)) && ToDecimal(PrintedNumeral(d)) == d
  {
    PrintedDecimal(d);
    ScanComplete(PrintedNumeral(d));
  }

  /** Parsing the printed text gives the number back. */
  lemma ParseText(d: Decimal)
    requires Normalised(d) && d.digits != []
    ensures ParseUnits(Text(d)) == Parsed(d)
  {
    ScanText(d);
    ConcludeScanned(ScanNumeral(Text(d)), PrintedNumeral(d));
  }
}
