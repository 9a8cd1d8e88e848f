/** Numbers as text in JSON values: the conversions of the library, and the temporary buffers that
    hold the text (support/dpiJson.c). */
module JsonNumbers {
  import opened Common
  import opened Decimals
  import opened OracleNumber
  import opened NumberText
  import opened JsonTree
  import JsonBuffers
  import NumberCode
  import NumberPrinter

  /** The text of a number, when its bytes make sense and the text fits the buffer. */
  function TextOfNumber(bytes: seq<int>): Option<Bytes> {
    if |bytes| >= 2 && (1 <= bytes[0] <= MAX_MANTISSA + 1 ==> |bytes| > bytes[0]) then
      match Decode(bytes)
      case None => None
      case Some(d) => if |Text(d)| <= TEXT_CHARS then Some(Text(d)) else None
    else None
  }

  /** The text of a number is parsed and encoded. */
  function NumberOfText(t: Bytes): Option<seq<int>> {
    if 0 < |t| <= TEXT_CHARS then
      match ParseUnits(t)
      case Parsed(d) => Some(Encode(d))
      case _ => None
    else None
  }

  /** A number as the printer writes it. */
  ghost predicate CanonicalNumber(t: Bytes) {
    t == [NUL] || exists d :: Normalised(d) && Fits(d) && d.digits != [] && t == Text(d)
  }

  lemma ZeroParses()
    ensures ParseUnits([NUL]) == Parsed(Decimal(false, 0, []))
  {
    var n := Numeral(false, [0], false, [], NoExponent);
    assert Render(n) == [NUL];
    ScanComplete(n);
    assert ToDecimal(n) == Decimal(false, 0, []);
    ParseScanned([NUL], n);
  }

  lemma ZeroPrints()
    ensures Encode(Decimal(false, 0, [])) == [1, ZERO_CODE]
    ensures TextOfNumber([1, ZERO_CODE]) == Some([NUL])
  {
    assert [1, ZERO_CODE][1..2] == [ZERO_CODE];
    assert Text(Decimal(false, 1, [0])) == [NUL];
  }

  lemma TextNotEmpty(d: Decimal)
    requires d.digits != []
    ensures |Text(d)| > 0
  {
    TextLength(d);
  }

  lemma PrintedReturns(d: Decimal)
    requires Normalised(d) && Fits(d) && d.digits != []
    ensures NumberOfText(Text(d)) == Some(Encode(d)) && TextOfNumber(Encode(d)) == Some(Text(d))
  {
    ParseText(d);
    TextFits(d);
    TextNotEmpty(d);
    DecodeEncode(d);
    EncodedSize(d);
  }

  /** Number text in the printer's own form survives being stored and read. */
  lemma CanonicalReturns(t: Bytes)
    requires CanonicalNumber(t)
    ensures NumberOfText(t).Some? && TextOfNumber(NumberOfText(t).value) == Some(t)
  {
    if t == [NUL] {
      ZeroParses();
      ZeroPrints();
    } else {
      var d :| Normalised(d) && Fits(d) && d.digits != [] && t == Text(d);
      PrintedReturns(d);
    }
  }

  ghost predicate UsesLibrary(env: Env) {
    && env.numberAsString
    && (forall t :: env.numberFromText(t) == NumberOfText(t))
    && (forall b :: env.numberToText(b) == TextOfNumber(b))
  }

  /** JSON numbers given as text in the printer's own form are among the scalars that return. */
  lemma NumberRoundTrip(env: Env, t: Bytes)
    requires UsesLibrary(env) && CanonicalNumber(t)
    ensures ScalarReturns(env, Number, BytesValue(t))
  {
    CanonicalReturns(t);
  }

  /** The two conversions are those of the parser and the printer as they are run: of single-byte text, and of
      the 22 bytes of a number. */
  lemma LibraryConversions(t: Bytes, bytes: seq<int>)
    requires |bytes| == 22
    ensures var parsed := NumberCode.ParseString(t, false, |t|);
            NumberOfText(t) == if parsed.Parsed? then Some(Encode(parsed.decimal)) else None
    ensures TextOfNumber(bytes) == JsonBuffers.TextOf(NumberPrinter.SingleByte, bytes)
  {
    if Decode(bytes).Some? {
      var text := Text(Decode(bytes).value);
      NumberPrinter.SingleBytes(text);
    }
  }
}
