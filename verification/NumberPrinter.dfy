/** The number printer as the code runs it, and the way of a number through the whole library:
    text, NUMBER bytes and text again (support/dpiData.c). */
module NumberPrinter {
  import opened Common
  import opened Decimals
  import opened OracleNumber
  import opened NumberText
  import opened NumberCode

  // The four pieces of a printed number.

  function Sign(d: Decimal): seq<nat> { if d.negative then [MINUS] else [] }

  function Lead(d: Decimal): seq<nat> { if d.point <= 0 then [NUL, DOT] + Chars(Zeros(-d.point)) else [] }

  /** The first `i` digits, with the decimal point when it lies among them. */
  function Middle(d: Decimal, i: nat): seq<nat>
    requires i <= |d.digits|
  {
    if 0 < d.point < i then Chars(d.digits[..d.point]) + [DOT] + Chars(d.digits[d.point..i])
    else Chars(d.digits[..i])
  }

  function Trail(d: Decimal): seq<nat> {
    if d.point > 0 && d.point > |d.digits| then Chars(Zeros(d.point - |d.digits|)) else []
  }

  lemma PiecesBelowOne(d: Decimal)
    requires d.point <= 0
    ensures Text(d) == Sign(d) + Lead(d) + Chars(d.digits)
  {
    assert Chars(Zeros(-d.point) + d.digits) == Chars(Zeros(-d.point)) + Chars(d.digits);
    assert Chars([0]) == [NUL];
  }

  lemma PiecesWithinDigits(d: Decimal)
    requires 0 < d.point < |d.digits|
    ensures Text(d) == Sign(d) + (Chars(d.digits[..d.point]) + [DOT] + Chars(d.digits[d.point..]))
  {
  }

  lemma PiecesWhole(d: Decimal)
    requires d.point > 0 && d.point >= |d.digits|
    ensures Text(d) == Sign(d) + (Chars(d.digits) + Chars(Zeros(d.point - |d.digits|)))
  {
    assert Chars(d.digits + Zeros(d.point - |d.digits|)) == Chars(d.digits) + Chars(Zeros(d.point - |d.digits|));
  }

  lemma TextPieces(d: Decimal)
    ensures Text(d) == Sign(d) + Lead(d) + Middle(d, |d.digits|) + Trail(d)
  {
    var n := |d.digits|;
    assert d.digits[..n] == d.digits;
    if d.point <= 0 {
      PiecesBelowOne(d);
    } else if d.point < n {
      PiecesWithinDigits(d);
      assert d.digits[d.point..n] == d.digits[d.point..];
    } else {
      PiecesWhole(d);
    }
  }

  lemma MiddleStep(d: Decimal, i: nat, dot: bool)
    requires i < |d.digits| && (dot <==> i > 0 && i == if d.point <= 0 then 0 else d.point)
    ensures Middle(d, i + 1) == Middle(d, i) + (PointBefore(dot) + [NUL + d.digits[i]])
  {
    if 0 < d.point <= i {
      assert d.digits[d.point..i + 1] == d.digits[d.point..i] + [d.digits[i]];
      assert d.digits[d.point..d.point] == [];
    } else {
      assert d.digits[..i + 1] == d.digits[..i] + [d.digits[i]];
    }
  }

  lemma MiddleLength(d: Decimal, i: nat)
    requires i <= |d.digits|
    ensures |Middle(d, i)| == i + if 0 < d.point < i then 1 else 0
  {
  }

  // --------------------------------------------------------------------------------------
  // Characters as bytes
  // --------------------------------------------------------------------------------------

  /** The character set of the environment: one byte for each character, or UTF-16 in the byte
      order of the platform. */
  datatype Encoding = SingleByte | Utf16(littleEndian: bool)

  /** How many bytes a number of characters takes. */
  function ByteCount(e: Encoding, n: nat): nat {
    if e.SingleByte? then n else 2 * n
  }

  /** Byte number `i` of the characters `t`. */
  function ByteAt(e: Encoding, t: seq<nat>, i: nat): nat
    requires i < ByteCount(e, |t|)
  {
    match e
    case SingleByte => t[i]
    case Utf16(littleEndian) => if littleEndian == (i % 2 == 0) then t[i / 2] % 256 else t[i / 2] / 256
  }

  function Bytes(e: Encoding, t: seq<nat>): (bs: seq<nat>)
    ensures |bs| == ByteCount(e, |t|)
  {
    seq(ByteCount(e, |t|), i requires 0 <= i < ByteCount(e, |t|) => ByteAt(e, t, i))
  }

  lemma ByteOfSum(e: Encoding, t: seq<nat>, u: seq<nat>, i: nat)
    requires i < ByteCount(e, |t + u|)
    ensures var n := ByteCount(e, |t|);
            ByteAt(e, t + u, i) == if i < n then ByteAt(e, t, i) else ByteAt(e, u, i - n)
  {
    if e.Utf16? && i >= 2 * |t| {
      assert (i - 2 * |t|) / 2 == i / 2 - |t| && (i - 2 * |t|) % 2 == i % 2;
    }
  }

  lemma BytesAppend(e: Encoding, t: seq<nat>, u: seq<nat>)
    ensures Bytes(e, t + u) == Bytes(e, t) + Bytes(e, u)
  {
    forall i | 0 <= i < ByteCount(e, |t + u|)
      ensures Bytes(e, t + u)[i] == (Bytes(e, t) + Bytes(e, u))[i]
    {
      ByteOfSum(e, t, u, i);
    }
  }

  /** In a single-byte character set the bytes are the characters. */
  lemma SingleBytes(t: seq<nat>)
    ensures Bytes(SingleByte, t) == t
  {
  }

  /** The characters of a printed number are all below 256. */
  lemma TextIsNarrow(d: Decimal, i: nat)
    requires AllDigits(d.digits) && i < |Text(d)|
    ensures Text(d)[i] < 256
  {
  }

  lemma WidenedUnit(t: seq<nat>, i: nat)
    requires i < |t| && t[i] < 256
    ensures Bytes(Utf16(true), t)[2 * i] == t[i] && Bytes(Utf16(true), t)[2 * i + 1] == 0
    ensures Bytes(Utf16(false), t)[2 * i] == 0 && Bytes(Utf16(false), t)[2 * i + 1] == t[i]
  {
  }

  /** The UTF-16 form of a printed number is its single-byte form with every byte widened by a zero
      byte, on the side that the byte order of the platform asks for. */
  lemma Widened(d: Decimal, i: nat)
    requires AllDigits(d.digits) && i < |Text(d)|
    ensures var narrow := Bytes(SingleByte, Text(d));
            var little, big := Bytes(Utf16(true), Text(d)), Bytes(Utf16(false), Text(d));
            && |narrow| == |Text(d)| && |little| == |big| == 2 * |Text(d)|
            && little[2 * i] == narrow[i] && little[2 * i + 1] == 0
            && big[2 * i] == 0 && big[2 * i + 1] == narrow[i]
  {
    TextIsNarrow(d, i);
    SingleBytes(Text(d));
    WidenedUnit(Text(d), i);
  }

  // --------------------------------------------------------------------------------------
  // The printer
  // --------------------------------------------------------------------------------------

  /** The characters `t` have been written from `start` up to `pos`, and nothing else has changed. */
  ghost predicate Written(e: Encoding, before: seq<nat>, after: seq<nat>, start: nat, pos: nat, t: seq<nat>) {
    && pos == start + ByteCount(e, |t|) <= |before|
    && after == before[..start] + Bytes(e, t) + before[pos..]
  }

  lemma NothingWritten(e: Encoding, before: seq<nat>, start: nat)
    requires start <= |before|
    ensures Written(e, before, before, start, start, [])
  {
  }

  /** Writing on where the last write ended. */
  lemma WrittenOn(
    e: Encoding, a: seq<nat>, b: seq<nat>, c: seq<nat>, start: nat, middle: nat, pos: nat, t: seq<nat>, u: seq<nat>)
    requires Written(e, a, b, start, middle, t) && Written(e, b, c, middle, pos, u)
    ensures Written(e, a, c, start, pos, t + u)
  {
    BytesAppend(e, t, u);
    Spliced(a, b, c, start, Bytes(e, t), Bytes(e, u));
  }

  lemma Spliced(a: seq<nat>, b: seq<nat>, c: seq<nat>, start: nat, x: seq<nat>, y: seq<nat>)
    requires start + |x| + |y| <= |a|
    requires b == a[..start] + x + a[start + |x|..]
    requires c == b[..start + |x|] + y + b[start + |x| + |y|..]
    ensures c == a[..start] + (x + y) + a[start + |x| + |y|..]
  {
    assert b[..start + |x|] == a[..start] + x;
    assert b[start + |x| + |y|..] == a[start + |x| + |y|..];
  }

  /** Stores one character. */
  method WriteUnit(target: array<nat>, start: nat, e: Encoding, c: nat) returns (pos: nat)
    requires start + ByteCount(e, 1) <= target.Length
    modifies target
    ensures Written(e, old(target[..]), target[..], start, pos, [c])
  {
    match e {
      case SingleByte =>
        target[start] := c;
        pos := start + 1;
      case Utf16(littleEndian) =>
        target[start] := if littleEndian then c % 256 else c / 256;
        target[start + 1] := if littleEndian then c / 256 else c % 256;
        pos := start + 2;
    }
  }

  /** Stores one more character behind those written already. */
  method WriteAnother(
    target: array<nat>, ghost start: nat, current: nat, e: Encoding, ghost text: seq<nat>, c: nat, ghost before: seq<nat>)
    returns (pos: nat)
    requires Written(e, before, target[..], start, current, text)
    requires current + ByteCount(e, 1) <= target.Length
    modifies target
    ensures Written(e, before, target[..], start, pos, text + [c])
  {
    ghost var now := target[..];
    pos := WriteUnit(target, current, e, c);
    WrittenOn(e, before, now, target[..], start, current, pos, text, [c]);
  }

  /** Writes `count` zeroes. */
  method WriteZeros(target: array<nat>, start: nat, e: Encoding, count: nat) returns (pos: nat)
    requires start + ByteCount(e, count) <= target.Length
    modifies target
    ensures Written(e, old(target[..]), target[..], start, pos, Chars(Zeros(count)))
  {
    pos := start;
    NothingWritten(e, target[..], start);
    for i := 0 to count
      invariant Written(e, old(target[..]), target[..], start, pos, Chars(Zeros(i)))
    {
      assert Chars(Zeros(i + 1)) == Chars(Zeros(i)) + [NUL];
      pos := WriteAnother(target, start, pos, e, Chars(Zeros(i)), NUL, old(target[..]));
    }
  }

  function PointBefore(dot: bool): seq<nat> { if dot then [DOT] else [] }

  /** Writes one digit, with the decimal point in front of it if that is its place. */
  method WriteDigit(target: array<nat>, start: nat, e: Encoding, dot: bool, digit: nat) returns (pos: nat)
    requires start + ByteCount(e, |PointBefore(dot)| + 1) <= target.Length
    modifies target
    ensures Written(e, old(target[..]), target[..], start, pos, PointBefore(dot) + [NUL + digit])
  {
    pos := start;
    NothingWritten(e, target[..], start);
    if dot {
      pos := WriteUnit(target, pos, e, DOT);
    }
    pos := WriteAnother(target, start, pos, e, PointBefore(dot), NUL + digit, old(target[..]));
  }

  /** The loop over the digits; by then the decimal point index is never negative. */
  method WriteDigits(d: Decimal, decimalPointIndex: int, target: array<nat>, start: nat, e: Encoding) returns (pos: nat)
    requires decimalPointIndex == if d.point <= 0 then 0 else d.point
    requires start + ByteCount(e, |Middle(d, |d.digits|)|) <= target.Length
    modifies target
    ensures Written(e, old(target[..]), target[..], start, pos, Middle(d, |d.digits|))
  {
    pos := start;
    NothingWritten(e, target[..], start);
    assert Middle(d, 0) == [];
    for i := 0 to |d.digits|
      invariant Written(e, old(target[..]), target[..], start, pos, Middle(d, i))
    {
      pos := WriteNext(d, i, i > 0 && i == decimalPointIndex, target, start, pos, e, old(target[..]));
    }
  }

  /** One turn of the loop. */
  method WriteNext(
    d: Decimal, i: nat, dot: bool, target: array<nat>, ghost start: nat, current: nat, e: Encoding, ghost before: seq<nat>)
    returns (pos: nat)
    requires i < |d.digits| && (dot <==> i > 0 && i == if d.point <= 0 then 0 else d.point)
    requires start + ByteCount(e, |Middle(d, |d.digits|)|) <= target.Length
    requires Written(e, before, target[..], start, current, Middle(d, i))
    modifies target
    ensures Written(e, before, target[..], start, pos, Middle(d, i + 1))
  {
    MiddleStep(d, i, dot);
    MiddleLength(d, i + 1);
    MiddleLength(d, |d.digits|);
    ghost var text, next, now := Middle(d, i), PointBefore(dot) + [NUL + d.digits[i]], target[..];
    assert |Middle(d, i + 1)| == |text| + |next|;
    pos := WriteDigit(target, current, e, dot, d.digits[i]);
    WrittenOn(e, before, now, target[..], start, current, pos, text, next);
  }

  method WriteSign(isNegative: bool, target: array<nat>, e: Encoding) returns (pos: nat)
    requires isNegative ==> ByteCount(e, 1) <= target.Length
    modifies target
    ensures Written(e, old(target[..]), target[..], 0, pos, if isNegative then [MINUS] else [])
  {
    pos := 0;
    NothingWritten(e, target[..], 0);
    if isNegative {
      pos := WriteUnit(target, 0, e, MINUS);
    }
  }

  /** The zero and the point in front of the digits of a number below one, and `zeros` more zeroes. */
  method WriteLead(target: array<nat>, start: nat, e: Encoding, zeros: nat) returns (pos: nat)
    requires start + ByteCount(e, 2 + zeros) <= target.Length
    modifies target
    ensures Written(e, old(target[..]), target[..], start, pos, [NUL, DOT] + Chars(Zeros(zeros)))
  {
    pos := WriteUnit(target, start, e, NUL);
    pos := WriteAnother(target, start, pos, e, [NUL], DOT, old(target[..]));
    assert [NUL] + [DOT] == [NUL, DOT];
    ghost var middle, now := pos, target[..];
    pos := WriteZeros(target, pos, e, zeros);
    WrittenOn(e, old(target[..]), now, target[..], start, middle, pos, [NUL, DOT], Chars(Zeros(zeros)));
  }

  method WriteSignAndLead(d: Decimal, target: array<nat>, e: Encoding) returns (pos: nat, decimalPointIndex: int)
    requires ByteCount(e, |Sign(d) + Lead(d)|) <= target.Length
    modifies target
    ensures Written(e, old(target[..]), target[..], 0, pos, Sign(d) + Lead(d))
    ensures decimalPointIndex == if d.point <= 0 then 0 else d.point
  {
    decimalPointIndex := d.point;
    pos := WriteSign(d.negative, target, e);
    if decimalPointIndex <= 0 {
      ghost var middle, now := pos, target[..];
      pos := WriteLead(target, pos, e, -decimalPointIndex);
      WrittenOn(e, old(target[..]), now, target[..], 0, middle, pos, Sign(d), Lead(d));
      decimalPointIndex := 0;
    } else {
      assert Sign(d) + Lead(d) == Sign(d);
    }
  }

  /** Everything up to the last digit. */
  method WriteNumber(d: Decimal, target: array<nat>, e: Encoding) returns (pos: nat, decimalPointIndex: int)
    requires ByteCount(e, |Sign(d) + Lead(d)| + |Middle(d, |d.digits|)|) <= target.Length
    modifies target
    ensures Written(e, old(target[..]), target[..], 0, pos, Sign(d) + Lead(d) + Middle(d, |d.digits|))
    ensures decimalPointIndex == if d.point <= 0 then 0 else d.point
  {
    pos, decimalPointIndex := WriteSignAndLead(d, target, e);
    ghost var middle, now := pos, target[..];
    pos := WriteDigits(d, decimalPointIndex, target, pos, e);
    WrittenOn(e, old(target[..]), now, target[..], 0, middle, pos, Sign(d) + Lead(d), Middle(d, |d.digits|));
  }

  /** The zeroes behind the digits. */
  method WriteTrail(d: Decimal, decimalPointIndex: int, target: array<nat>, start: nat, e: Encoding) returns (pos: nat)
    requires decimalPointIndex == if d.point <= 0 then 0 else d.point
    requires start + ByteCount(e, |Trail(d)|) <= target.Length
    modifies target
    ensures Written(e, old(target[..]), target[..], start, pos, Trail(d))
  {
    pos := start;
    NothingWritten(e, target[..], start);
    if decimalPointIndex > |d.digits| {
      pos := WriteZeros(target, pos, e, decimalPointIndex - |d.digits|);
    }
  }

  method WritePieces(d: Decimal, target: array<nat>, e: Encoding, ghost number: seq<nat>) returns (pos: nat)
    requires number == Sign(d) + Lead(d) + Middle(d, |d.digits|)
    requires ByteCount(e, |number| + |Trail(d)|) <= target.Length
    modifies target
    ensures Written(e, old(target[..]), target[..], 0, pos, number + Trail(d))
  {
    var decimalPointIndex;
    pos, decimalPointIndex := WriteNumber(d, target, e);
    ghost var middle, now := pos, target[..];
    pos := WriteTrail(d, decimalPointIndex, target, pos, e);
    WrittenOn(e, old(target[..]), now, target[..], 0, middle, pos, number, Trail(d));
  }

  method WriteText(d: Decimal, target: array<nat>, e: Encoding) returns (pos: nat)
    requires ByteCount(e, |Text(d)|) <= target.Length
    modifies target
    ensures Written(e, old(target[..]), target[..], 0, pos, Text(d))
  {
    TextPieces(d);
    pos := WritePieces(d, target, e, Sign(d) + Lead(d) + Middle(d, |d.digits|));
  }

  /** Prints a number into a buffer of `length` bytes: as many bytes as were computed beforehand, or
      none if there is no room for them. */
  method PrintNumber(d: Decimal, e: Encoding, target: array<nat>, length: nat)
    returns (status: Status, numBytes: nat)
    requires target.Length >= length
    modifies target
    ensures numBytes == ByteCount(e, |Text(d)|)
    ensures status == Success <==> numBytes <= length
    ensures status == Success ==> Written(e, old(target[..]), target[..], 0, numBytes, Text(d))
    ensures status == Failure ==> target[..] == old(target[..])
  {
    var numDigits := |d.digits|;
    numBytes := numDigits;
    if d.negative {
      numBytes := numBytes + 1;
    }
    if d.point <= 0 {
      numBytes := numBytes + -d.point + 2;
    } else if d.point < numDigits {
      numBytes := numBytes + 1;
    } else if d.point > numDigits {
      numBytes := numBytes + (d.point - numDigits);
    }
    TextLength(d);
    if e.Utf16? {
      numBytes := numBytes * 2;
    }
    if numBytes > length {
      return Failure, numBytes;
    }
    var _ := WriteText(d, target, e);
    status := Success;
  }

  /** What printing the bytes of a number leaves in a buffer: nothing new if they are damaged or there
      is no room for the text, the text otherwise. */
  ghost predicate Printed(bytes: seq<int>, e: Encoding, length: nat, success: bool, numBytes: nat, before: seq<nat>, after: seq<nat>)
    requires |bytes| == NUMBER_SIZE
  {
    match Decode(bytes)
    case None => !success && after == before
    case Some(d) =>
      && (success <==> ByteCount(e, |Text(d)|) <= length)
      && (if success then numBytes == ByteCount(e, |Text(d)|) && Written(e, before, after, 0, numBytes, Text(d))
          else after == before)
  }

  /** What reading the bytes of a number leaves in an array of forty digits and the twenty behind it:
      these stay untouched exactly if the digits fit. */
  ghost predicate DigitsStored(bytes: seq<int>, before: seq<nat>, after: seq<nat>)
    requires |bytes| == NUMBER_SIZE && |before| == |after| == DIGIT_SPACE
  {
    match Decode(bytes)
    case None => after == before
    case Some(d) =>
      && |d.digits| <= DIGIT_SPACE && after == d.digits + before[|d.digits|..]
      && (|d.digits| <= MAX_DIGITS <==> DigitsFit(bytes))
  }

  /** Prints the number held in the bytes of an OCI number. */
  method FromOracleNumberAsText(oracleValue: array<int>, e: Encoding, digits: array<nat>, target: array<nat>, length: nat)
    returns (status: Status, numBytes: nat)
    requires oracleValue.Length == 22 && forall i :: 0 <= i < oracleValue.Length ==> IsByte(oracleValue[i])
    requires digits.Length == 60 && target.Length >= length && digits != target
    modifies digits, target
    ensures Printed(old(oracleValue[..]), e, length, status == Success, numBytes, old(target[..]), target[..])
    ensures DigitsStored(old(oracleValue[..]), old(digits[..]), digits[..])
  {
    ghost var bytes, before := oracleValue[..], digits[..];
    var isNegative, decimalPointIndex, numDigits;
    numBytes := 0;
    status, isNegative, decimalPointIndex, numDigits := ParseOracleNumber(oracleValue, digits);
    if status == Failure {
      return;
    }
    DigitsFitExact(bytes);
    assert digits[..] == digits[..numDigits] + digits[numDigits..];
    status, numBytes := PrintNumber(Decimal(isNegative, decimalPointIndex, digits[..numDigits]), e, target, length);
  }

  // --------------------------------------------------------------------------------------
  // The way through the library
  // --------------------------------------------------------------------------------------

  /** Decoding and printing the bytes of `d`, which was parsed from `t`, gives text of the same value
      that parses to the same number; the zeroes come back as "0". */
  ghost predicate ComesBack(t: seq<nat>, d: Decimal) {
    && Decode(Encode(d)).Some? && ScanNumeral(t).Scanned?
    && var back, value := Decode(Encode(d)).value, NumeralValue(ScanNumeral(t).value);
    if d.digits == [] then Text(back) == [NUL] && value == 0.0
    else
      && ParseUnits(Text(back)) == Parsed(d)
      && NumeralValue(PrintedNumeral(back)) == value
      && |Text(back)| <= TEXT_CHARS
  }

  /** Text that is accepted comes back if its number fits an OCI number. */
  lemma TextRoundTrip(t: seq<nat>)
    ensures ParseUnits(t).Parsed? && Fits(ParseUnits(t).decimal) ==> ComesBack(t, ParseUnits(t).decimal)
  {
    if ParseUnits(t).Parsed? && Fits(ParseUnits(t).decimal) {
      var d := ParseUnits(t).decimal;
      ParseCorrect(t);
      DecodeEncode(d);
      if d.digits == [] {
        ZeroText();
        TimesUnits(Pow10(d.point));
      } else {
        ParseText(d);
        TextValue(d);
        TextFits(d);
      }
    }
  }

  lemma ZeroText()
    ensures Text(Decimal(false, 1, [0])) == [NUL]
  {
  }

  /** Text in the printer's own form comes back unchanged. */
  lemma CanonicalTextUnchanged(d: Decimal)
    requires Normalised(d) && Fits(d) && d.digits != []
    ensures ParseUnits(Text(d)).Parsed?
    ensures var back := Decode(Encode(ParseUnits(Text(d)).decimal));
            back.Some? && Text(back.value) == Text(d)
  {
    ParseText(d);
    DecodeEncode(d);
  }

  /** A text whose number has forty digits and an odd decimal point is accepted by the parser but
      cannot be read back from the bytes. */
  lemma NoWayBack(t: seq<nat>)
    ensures ParseUnits(t).Parsed? ==>
              (Decode(Encode(ParseUnits(t).decimal)) == None <==> !Fits(ParseUnits(t).decimal))
  {
    ParseCorrect(t);
    if ParseUnits(t).Parsed? {
      DecodeEncode(ParseUnits(t).decimal);
    }
  }
}
