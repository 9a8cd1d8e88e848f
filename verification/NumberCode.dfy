/** The number parser and the number printer as the code runs them. */
module NumberCode {
  import opened Common
  import opened Decimals
  import opened OracleNumber
  import opened NumberText

  /** The digits without the zeroes in front. */
  function Significant(ds: seq<nat>): seq<nat> {
    ds[LeadingZeros(ds)..]
  }

  /** Reading one more digit: a zero is skipped as long as no other digit has been read. */
  lemma ReadDigit(ds: seq<nat>, d: nat)
    ensures if d == 0 && Significant(ds) == []
            then Significant(ds + [d]) == [] && LeadingZeros(ds + [d]) == LeadingZeros(ds) + 1
            else Significant(ds + [d]) == Significant(ds) + [d] && LeadingZeros(ds + [d]) == LeadingZeros(ds)
  {
    var n, m := LeadingZeros(ds), LeadingZeros(ds + [d]);
    if n < |ds| {
      assert (ds + [d])[n] != 0;
      assert m == n;
    } else {
      assert forall i :: 0 <= i < n ==> (ds + [d])[i] == 0;
      assert (ds + [d])[n] == d;
    }
  }

  /** `ds` are the digits that stand in `t` between two positions. */
  predicate DigitsBetween(t: seq<nat>, lo: nat, hi: nat, ds: seq<nat>) {
    lo <= hi <= |t| && AllDigits(ds) && Chars(ds) == t[lo..hi]
  }

  lemma NextDigit(t: seq<nat>, lo: nat, pos: nat, ds: seq<nat>)
    requires DigitsBetween(t, lo, pos, ds) && pos < |t| && IsDigit(t[pos])
    ensures DigitsBetween(t, lo, pos + 1, ds + [t[pos] - NUL])
  {
    assert t[lo..pos + 1] == t[lo..pos] + [t[pos]];
  }

  /** A maximal run of digits is where the grammar cuts the text. */
  lemma RunEnds(t: seq<nat>, lo: nat, hi: nat, ds: seq<nat>)
    requires DigitsBetween(t, lo, hi, ds)
    requires hi == |t| || !IsDigit(t[hi])
    ensures LeadDigits(t[lo..]) == ds && AfterDigits(t[lo..]) == t[hi..]
  {
    assert t[lo..] == t[lo..hi] + t[hi..];
    CutRun(ds, t[hi..]);
  }

  lemma RunAtLeast(t: seq<nat>, lo: nat, hi: nat, ds: seq<nat>)
    requires DigitsBetween(t, lo, hi, ds)
    ensures |LeadDigits(t[lo..])| >= |ds|
  {
    assert forall i :: 0 <= i < |ds| ==> t[lo..][i] == t[lo..hi][i] == NUL + ds[i];
  }

  ghost predicate ReadSoFar(t: seq<nat>, start: nat, pos: nat, whole: seq<nat>, digits: seq<nat>) {
    DigitsBetween(t, start, pos, whole) && digits == Significant(whole)
  }

  lemma ReadNext(t: seq<nat>, start: nat, pos: nat, whole: seq<nat>, digits: seq<nat>, digit: nat)
    requires ReadSoFar(t, start, pos, whole, digits) && pos < |t| && IsDigit(t[pos]) && digit == t[pos] - NUL
    ensures ReadSoFar(t, start, pos + 1, whole + [digit], if digit == 0 && digits == [] then digits else digits + [digit])
  {
    NextDigit(t, start, pos, whole);
    ReadDigit(whole, digit);
  }

  /** The digits in front of the decimal point. */
  method ParseWhole(t: seq<nat>, start: nat) returns (ok: bool, pos: nat, digits: seq<nat>, ghost whole: seq<nat>)
    requires start <= |t|
    ensures start <= pos <= |t|
    ensures ok ==> whole == LeadDigits(t[start..]) && t[pos..] == AfterDigits(t[start..])
    ensures ok ==> digits == Significant(whole)
    ensures ok ==> pos == |t| || t[pos] == 46 || IsMarker(t[pos])
    ensures !ok ==> AfterDigits(t[start..]) != [] && AfterDigits(t[start..])[0] != 46 && !IsMarker(AfterDigits(t[start..])[0])
  {
    ok, pos, digits, whole := true, start, [], [];
    assert Chars(whole) == t[start..pos];
    while pos < |t| && t[pos] != DOT && !IsMarker(t[pos])
      invariant ok && ReadSoFar(t, start, pos, whole, digits)
    {
      if t[pos] < NUL || t[pos] > NUL + 9 {
        ok := false;
        break;
      }
      var digit := t[pos] - NUL;
      ReadNext(t, start, pos, whole, digits, digit);
      pos := pos + 1;
      whole := whole + [digit];
      if digit == 0 && |digits| == 0 {
        continue;
      }
      digits := digits + [digit];
    }
    RunEnds(t, start, pos, whole);
  }

  /** The digits behind the decimal point; zeroes in front of the first other digit move the
      decimal point. */
  method ParseFraction(t: seq<nat>, start: nat, digits0: seq<nat>, point0: int, ghost whole: seq<nat>)
    returns (ok: bool, pos: nat, digits: seq<nat>, decimalPointIndex: int, ghost fraction: seq<nat>)
    requires start <= |t|
    requires digits0 == Significant(whole) && point0 == |whole| - LeadingZeros(whole)
    ensures start <= pos <= |t|
    ensures ok ==> fraction == LeadDigits(t[start..]) && t[pos..] == AfterDigits(t[start..])
    ensures ok ==> digits == Significant(whole + fraction)
    ensures ok ==> decimalPointIndex == |whole| - LeadingZeros(whole + fraction)
    ensures ok ==> pos == |t| || IsMarker(t[pos])
    ensures !ok ==> AfterDigits(t[start..]) != [] && !IsMarker(AfterDigits(t[start..])[0])
  {
    ok, pos, digits, decimalPointIndex, fraction := true, start, digits0, point0, [];
    assert Chars(fraction) == t[start..pos];
    assert whole + fraction == whole;
    while pos < |t| && !IsMarker(t[pos])
      invariant ok && DigitsBetween(t, start, pos, fraction)
      invariant digits == Significant(whole + fraction)
      invariant decimalPointIndex == |whole| - LeadingZeros(whole + fraction)
    {
      if t[pos] < NUL || t[pos] > NUL + 9 {
        ok := false;
        break;
      }
      var digit := t[pos] - NUL;
      NextDigit(t, start, pos, fraction);
      pos := pos + 1;
      ReadDigit(whole + fraction, digit);
      assert whole + (fraction + [digit]) == whole + fraction + [digit];
      fraction := fraction + [digit];
      if digit == 0 && |digits| == 0 {
        decimalPointIndex := decimalPointIndex - 1;
        continue;
      }
      digits := digits + [digit];
    }
    RunEnds(t, start, pos, fraction);
  }

  function ExponentOf(e: Scan<Exponent>): Scan<int> {
    match e
    case Malformed => Malformed
    case LongExponent => LongExponent
    case Scanned(x) => Scanned(ExponentValue(x))
  }

  /** What the digits of an exponent amount to. */
  function ExponentDigits(rest: seq<nat>): Scan<nat> {
    var digits := LeadDigits(rest);
    if |digits| > 3 then LongExponent
    else if digits == [] || AfterDigits(rest) != [] then Malformed
    else Scanned(Whole(digits))
  }

  method ParseExponentDigits(t: seq<nat>, first: nat) returns (result: Scan<nat>)
    requires first <= |t|
    ensures result == ExponentDigits(t[first..])
  {
    var pos, exponentDigits: seq<nat> := first, [];
    assert Chars(exponentDigits) == t[first..pos];
    while pos < |t|
      invariant DigitsBetween(t, first, pos, exponentDigits) && |exponentDigits| <= 3
    {
      if t[pos] < NUL || t[pos] > NUL + 9 {
        RunEnds(t, first, pos, exponentDigits);
        return Malformed;
      }
      NextDigit(t, first, pos, exponentDigits);
      if |exponentDigits| == 3 {
        RunAtLeast(t, first, pos + 1, exponentDigits + [t[pos] - NUL]);
        return LongExponent;
      }
      exponentDigits := exponentDigits + [t[pos] - NUL];
      pos := pos + 1;
    }
    RunEnds(t, first, pos, exponentDigits);
    return if |exponentDigits| == 0 then Malformed else Scanned(Whole(exponentDigits));
  }

  lemma ExponentBySign(t: seq<nat>)
    requires t != [] && IsMarker(t[0])
    ensures ExponentOf(ScanExponent(t))
         == match ExponentDigits(t[1 + |ExponentSign(t)|..])
            case Malformed => Malformed
            case LongExponent => LongExponent
            case Scanned(n) => Scanned(if ExponentSign(t) == [MINUS] then -(n as int) else n)
  {
  }

  /** The exponent, which starts with its marker at `start`. */
  method ParseExponent(t: seq<nat>, start: nat) returns (result: Scan<int>)
    requires start < |t| && IsMarker(t[start])
    ensures result == ExponentOf(ScanExponent(t[start..]))
  {
    var pos := start + 1;
    var exponentIsNegative := false;
    if pos < |t| && (t[pos] == PLUS || t[pos] == MINUS) {
      exponentIsNegative := t[pos] == MINUS;
      pos := pos + 1;
    }
    ghost var rest := t[start..];
    assert |ExponentSign(rest)| == pos - start - 1 && (ExponentSign(rest) == [MINUS] <==> exponentIsNegative);
    assert rest[1 + |ExponentSign(rest)|..] == t[pos..];
    ExponentBySign(rest);
    var digits := ParseExponentDigits(t, pos);
    match digits {
      case Malformed => result := Malformed;
      case LongExponent => result := LongExponent;
      case Scanned(n) => result := Scanned(if exponentIsNegative then -(n as int) else n);
    }
  }

  method ParseOptionalExponent(t: seq<nat>, pos: nat) returns (result: Scan<int>)
    requires pos <= |t| && (pos == |t| || IsMarker(t[pos]))
    ensures result == ExponentOf(ScanExponent(t[pos..]))
  {
    if pos < |t| {
      result := ParseExponent(t, pos);
    } else {
      result := Scanned(0);
    }
  }

  method StripTrailingZeroes(digits: seq<nat>) returns (numDigits: nat)
    ensures numDigits <= |digits| && digits[..numDigits] == StripTrailing(digits)
  {
    numDigits := |digits|;
    assert digits[..numDigits] == digits;
    while numDigits > 0 && digits[numDigits - 1] == 0
      invariant numDigits <= |digits|
      invariant StripTrailing(digits[..numDigits]) == StripTrailing(digits)
    {
      assert digits[..numDigits][..numDigits - 1] == digits[..numDigits - 1];
      numDigits := numDigits - 1;
    }
  }

  /** What becomes of sign, digits and decimal point once the exponent is known. */
  function Conclusion(negative: bool, point: int, digits: seq<nat>, exponent: Scan<int>): ParseResult {
    match exponent
    case Malformed => InvalidNumber
    case LongExponent => NotSupported
    case Scanned(e) =>
      var d := Decimal(negative, point + e, StripTrailing(digits));
      if Representable(d) then Parsed(d) else NumberNoRepr
  }

  lemma ConclusionOfNumeral(n: Numeral, point: int, digits: seq<nat>)
    requires digits == Significant(n.whole + n.fraction) && point == |n.whole| - LeadingZeros(n.whole + n.fraction)
    ensures Conclude(Scanned(n)) == Conclusion(n.negative, point, digits, Scanned(ExponentValue(n.exponent)))
  {
  }

  lemma ConclusionOfTail(scan: Scan<Numeral>, n: Numeral, tail: seq<nat>, point: int, digits: seq<nat>)
    requires scan == ScanTail(n.negative, n.whole, n.hasDot, n.fraction, tail)
    requires digits == Significant(n.whole + n.fraction) && point == |n.whole| - LeadingZeros(n.whole + n.fraction)
    ensures Conclude(scan) == Conclusion(n.negative, point, digits, ExponentOf(ScanExponent(tail)))
  {
    var e := ScanExponent(tail);
    if e.Scanned? {
      ConclusionOfNumeral(n.(exponent := e.value), point, digits);
    }
  }

  method Finish(isNegative: bool, decimalPointIndex: int, digits: seq<nat>, exponent: Scan<int>)
    returns (result: ParseResult)
    ensures result == Conclusion(isNegative, decimalPointIndex, digits, exponent)
  {
    match exponent {
      case Malformed => return InvalidNumber;
      case LongExponent => return NotSupported;
      case Scanned(e) =>
        var point := decimalPointIndex + e;
        var numDigits := StripTrailingZeroes(digits);
        if numDigits > MAX_DIGITS || point > MAX_POINT || point < MIN_POINT {
          return NumberNoRepr;
        }
        return Parsed(Decimal(isNegative, point, digits[..numDigits]));
    }
  }

  lemma BadTail(negative: bool, whole: seq<nat>, hasDot: bool, fraction: seq<nat>, tail: seq<nat>)
    requires tail != [] && !IsMarker(tail[0])
    ensures ScanTail(negative, whole, hasDot, fraction, tail) == Malformed
  {
  }

  lemma DotAt(t: seq<nat>, pos: nat, negative: bool, whole: seq<nat>)
    requires pos < |t| && t[pos] == DOT
    ensures ScanFraction(negative, whole, t[pos..])
         == ScanTail(negative, whole, true, LeadDigits(t[pos + 1..]), AfterDigits(t[pos + 1..]))
  {
    assert t[pos..] == [DOT] + t[pos + 1..];
    ScanDot(negative, whole, t[pos + 1..]);
  }

  lemma BadEnd(negative: bool, whole: seq<nat>, tail: seq<nat>)
    requires tail != [] && tail[0] != DOT && !IsMarker(tail[0])
    ensures ScanFraction(negative, whole, tail) == Malformed
  {
    ScanNoDot(negative, whole, tail);
    BadTail(negative, whole, false, [], tail);
  }

  /** The digits `digits` and the point belong to the numeral, whose tail starts at `pos`. */
  ghost predicate MantissaRead(
    scan: Scan<Numeral>, t: seq<nat>, pos: nat, digits: seq<nat>, decimalPointIndex: int, n: Numeral)
  {
    && pos <= |t| && (pos == |t| || IsMarker(t[pos]))
    && scan == ScanTail(n.negative, n.whole, n.hasDot, n.fraction, t[pos..])
    && digits == Significant(n.whole + n.fraction)
    && decimalPointIndex == |n.whole| - LeadingZeros(n.whole + n.fraction)
  }

  /** What follows the digits in front of the point. */
  method ParseRest(t: seq<nat>, start: nat, digits0: seq<nat>, ghost negative: bool, ghost whole: seq<nat>)
    returns (ok: bool, pos: nat, digits: seq<nat>, decimalPointIndex: int, ghost numeral: Numeral)
    requires start <= |t| && digits0 == Significant(whole)
    requires start == |t| || t[start] == DOT || IsMarker(t[start])
    ensures numeral.negative == negative
    ensures var scan := ScanFraction(negative, whole, t[start..]);
            if ok then MantissaRead(scan, t, pos, digits, decimalPointIndex, numeral) else scan == Malformed
  {
    ok, pos, digits, decimalPointIndex := true, start, digits0, |digits0|;
    numeral := Numeral(negative, whole, false, [], NoExponent);
    if start < |t| && t[start] == DOT {
      ghost var fraction;
      DotAt(t, start, negative, whole);
      ok, pos, digits, decimalPointIndex, fraction := ParseFraction(t, start + 1, digits0, decimalPointIndex, whole);
      numeral := Numeral(negative, whole, true, fraction, NoExponent);
    } else {
      assert whole + [] == whole;
      ScanNoDot(negative, whole, t[start..]);
    }
  }

  /** The digits on both sides of the decimal point, up to the exponent. */
  method ParseMantissaDigits(t: seq<nat>, start: nat, ghost negative: bool)
    returns (ok: bool, pos: nat, digits: seq<nat>, decimalPointIndex: int, ghost numeral: Numeral)
    requires start <= |t|
    ensures numeral.negative == negative
    ensures var scan := ScanFraction(negative, LeadDigits(t[start..]), AfterDigits(t[start..]));
            if ok then MantissaRead(scan, t, pos, digits, decimalPointIndex, numeral) else scan == Malformed
  {
    ghost var whole;
    ok, pos, digits, whole := ParseWhole(t, start);
    decimalPointIndex := |digits|;
    numeral := Numeral(negative, whole, false, [], NoExponent);
    if !ok {
      BadEnd(negative, LeadDigits(t[start..]), AfterDigits(t[start..]));
    } else {
      ok, pos, digits, decimalPointIndex, numeral := ParseRest(t, pos, digits, negative, whole);
    }
  }

  /** The decimal point index and the digits decide, with the exponent, what is parsed. */
  method ParsePlainNumber(t: seq<nat>, start: nat, ghost negative: bool)
    returns (ok: bool, pos: nat, digits: seq<nat>, decimalPointIndex: int)
    requires start <= |t|
    ensures var u := t[start..];
            var result := Conclude(ScanFraction(negative, LeadDigits(u), AfterDigits(u)));
            if !ok then result == InvalidNumber
            else
              && pos <= |t| && (pos == |t| || IsMarker(t[pos]))
              && result == Conclusion(negative, decimalPointIndex, digits, ExponentOf(ScanExponent(t[pos..])))
  {
    ghost var numeral;
    ok, pos, digits, decimalPointIndex, numeral := ParseMantissaDigits(t, start, negative);
    if ok {
      ConclusionOfTail(ScanFraction(negative, LeadDigits(t[start..]), AfterDigits(t[start..])), numeral, t[pos..],
                       decimalPointIndex, digits);
    }
  }

  /** Everything behind the sign. */
  method ParseUnsigned(t: seq<nat>, start: nat, isNegative: bool) returns (result: ParseResult)
    requires start <= |t|
    ensures result == Conclude(ScanFraction(isNegative, LeadDigits(t[start..]), AfterDigits(t[start..])))
  {
    var ok, pos, digits, decimalPointIndex := ParsePlainNumber(t, start, isNegative);
    if !ok {
      return InvalidNumber;
    }
    var exponent := ParseOptionalExponent(t, pos);
    result := Finish(isNegative, decimalPointIndex, digits, exponent);
  }

  lemma AcceptedUnits(value: seq<nat>, r: ParseResult)
    requires r == ParseUnits(value) && r.Parsed?
    ensures Normalised(r.decimal)
  {
    ParseCorrect(value);
  }

  /** The parser on single-byte text. */
  method ParseSingleByte(t: seq<nat>) returns (result: ParseResult)
    ensures result == ParseUnits(t)
    ensures result.Parsed? ==> Normalised(result.decimal)
  {
    var isNegative := |t| > 0 && t[0] == MINUS;
    var start := if isNegative then 1 else 0;
    assert AfterMinus(t) == t[start..];
    result := ParseUnsigned(t, start, isNegative);
    if result.Parsed? {
      AcceptedUnits(t, result);
    }
  }

  /** What the parser makes of text of `length` bytes in one of the two kinds of encoding. */
  function ParseString(value: seq<nat>, utf16: bool, length: nat): ParseResult {
    if length == 0 then InvalidNumber
    else if length > (if utf16 then 2 * TEXT_CHARS else TEXT_CHARS) then NumberStringTooLong
    else if utf16 && exists i :: 0 <= i < |value| && value[i] > 127 then InvalidNumber
    else ParseUnits(value)
  }

  /** UTF-16 text of at most 172 units is parsed as the same text of single bytes, whether an odd byte is
      behind it or not, unless a unit is no ASCII character, which makes it invalid. */
  lemma Utf16AsSingleByte(value: seq<nat>, odd: bool)
    requires 0 < |value| <= 172 && (odd ==> |value| < 172)
    ensures var length := 2 * |value| + if odd then 1 else 0;
            ParseString(value, true, length)
            == if forall i :: 0 <= i < |value| ==> value[i] <= 127 then ParseString(value, false, |value|) else InvalidNumber
  {
  }

  /** Parses a string of code units; UTF-16 text is converted first, and an odd last byte of it
      is ignored. */
  method ParseNumberString(value: seq<nat>, utf16: bool, length: nat) returns (result: ParseResult)
    requires |value| == if utf16 then length / 2 else length
    ensures result == ParseString(value, utf16, length)
    ensures length == 0 ==> result == InvalidNumber
    ensures length > (if utf16 then 344 else 172) ==> result == NumberStringTooLong
    ensures 0 < length <= 172 && !utf16 ==> result == ParseUnits(value)
    ensures 0 < length <= 344 && utf16 ==>
              result == if forall i :: 0 <= i < |value| ==> value[i] <= 127 then ParseUnits(value) else InvalidNumber
    ensures result.Parsed? ==> Normalised(result.decimal)
  {
    if length == 0 {
      return InvalidNumber;
    }
    if (utf16 && length > 2 * TEXT_CHARS) || (!utf16 && length > TEXT_CHARS) {
      return NumberStringTooLong;
    }
    var converted := value;
    if utf16 {
      converted := [];
      for i := 0 to |value|
        invariant converted == value[..i]
        invariant forall j :: 0 <= j < i ==> value[j] <= 127
      {
        if value[i] > 127 {
          return InvalidNumber;
        }
        converted := converted + [value[i]];
      }
      assert converted == value;
    }
    result := ParseSingleByte(converted);
  }

  /** The bytes of a number have been written over 22 bytes and the byte behind them, which is
      left alone exactly when the number fits. */
  ghost predicate Stored(bytes: seq<int>, fits: bool, before: seq<int>, after: seq<int>)
    requires |before| == |after| == NUMBER_SIZE + 1
  {
    && |bytes| <= NUMBER_SIZE + 1 && after == bytes + before[|bytes|..]
    && (fits <==> |bytes| <= NUMBER_SIZE)
  }

  /** The bytes of accepted text have the value of the numeral. */
  lemma StoredValue(t: seq<nat>)
    ensures ParseUnits(t).Parsed? ==>
              ScanNumeral(t).Scanned? && BodyValue(Body(ParseUnits(t).decimal)) == NumeralValue(ScanNumeral(t).value)
  {
    ParseCorrect(t);
    if ParseUnits(t).Parsed? {
      EncodePreservesValue(ParseUnits(t).decimal);
    }
  }

  method StoreNumber(d: Decimal, oracleValue: array<int>)
    requires Normalised(d) && oracleValue.Length == NUMBER_SIZE + 1
    modifies oracleValue
    ensures Stored(Encode(d), Fits(d), old(oracleValue[..]), oracleValue[..])
  {
    EncodedSize(d);
    ToOracleNumber(d, oracleValue);
    PutAtStart(old(oracleValue[..]), oracleValue[..], Encode(d));
  }

  lemma PutAtStart(before: seq<int>, after: seq<int>, bytes: seq<int>)
    requires Put(before, after, 0, bytes)
    ensures after == bytes + before[|bytes|..]
  {
    assert before[..0] == [];
  }

  ghost predicate StoredResult(result: ParseResult, before: seq<int>, after: seq<int>)
    requires |before| == |after| == NUMBER_SIZE + 1
  {
    if result.Parsed? then Stored(Encode(result.decimal), Fits(result.decimal), before, after) else after == before
  }

  method StoreResult(result: ParseResult, oracleValue: array<int>)
    requires oracleValue.Length == NUMBER_SIZE + 1 && (result.Parsed? ==> Normalised(result.decimal))
    modifies oracleValue
    ensures StoredResult(result, old(oracleValue[..]), oracleValue[..])
  {
    if result.Parsed? {
      StoreNumber(result.decimal, oracleValue);
    }
  }

  /** Text to NUMBER. The array is the 22 bytes of an OCI number and the byte behind them; text that
      is refused leaves it unchanged. */
  method ToOracleNumberFromText(value: seq<nat>, utf16: bool, length: nat, oracleValue: array<int>) returns (result: ParseResult)
    requires |value| == if utf16 then length / 2 else length
    requires oracleValue.Length == 23
    modifies oracleValue
    ensures result == ParseString(value, utf16, length)
    ensures StoredResult(result, old(oracleValue[..]), oracleValue[..])
  {
    result := ParseNumberString(value, utf16, length);
    StoreResult(result, oracleValue);
  }
}
