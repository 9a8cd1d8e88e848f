/** The Oracle NUMBER wire format: a length byte, a biased exponent byte and base-100 mantissa
    bytes (support/dpiData.c and support/dpiUtils.c). */
module OracleNumber {
  import opened Common
  import opened Decimals

  const ZERO_CODE := 128
  const EXPONENT_BIAS := 193
  const SENTINEL := 102
  const NUMBER_SIZE := 22
  const MAX_MANTISSA := 20

  predicate IsByte(b: int) { 0 <= b < 256 }

  predicate OddPoint(d: Decimal) { d.point % 2 == 1 }

  /** The digits with a zero in front when the exponent is odd and one behind when that is
      needed to make pairs. */
  function Padded(d: Decimal): (ds: seq<nat>)
    ensures |ds| % 2 == 0
    ensures |d.digits| <= |ds| <= |d.digits| + 2
  {
    var ds := (if OddPoint(d) then [0] else []) + d.digits;
    if |ds| % 2 == 1 then ds + [0] else ds
  }

  /** Digits taken two at a time. */
  function Pairs(ds: seq<nat>): (ps: seq<nat>)
    ensures |ps| == |ds| / 2
  {
    if |ds| < 2 then [] else [10 * ds[0] + ds[1]] + Pairs(ds[2..])
  }

  lemma {:induction false} PairsAt(ds: seq<nat>, i: nat)
    requires i < |ds| / 2
    ensures Pairs(ds)[i] == 10 * ds[2 * i] + ds[2 * i + 1]
  {
    if i > 0 {
      PairsAt(ds[2..], i - 1);
    }
  }

  /** The power of 100 that multiplies the base-100 fraction. */
  function Scale(d: Decimal): int {
    (d.point + if OddPoint(d) then 1 else 0) / 2
  }

  function ExponentByte(negative: bool, scale: int): int {
    var e := scale - 1 + EXPONENT_BIAS;
    if negative then 255 - e else e
  }

  function MantissaByte(negative: bool, pair: nat): int {
    if negative then 101 - pair else pair + 1
  }

  function Mantissa(negative: bool, ps: seq<nat>): (bs: seq<int>)
    ensures |bs| == |ps|
  {
    seq(|ps|, i requires 0 <= i < |ps| => MantissaByte(negative, ps[i]))
  }

  predicate HasSentinel(d: Decimal) {
    d.negative && d.digits != [] && |Padded(d)| < MAX_DIGITS
  }

  /** The bytes after the length byte. */
  function Body(d: Decimal): (bs: seq<int>)
    ensures |bs| >= 1
  {
    if d.digits == [] then [ZERO_CODE]
    else
      [ExponentByte(d.negative, Scale(d))]
      + Mantissa(d.negative, Pairs(Padded(d)))
      + if HasSentinel(d) then [SENTINEL] else []
  }

  function Encode(d: Decimal): seq<int> {
    [|Body(d)|] + Body(d)
  }

  /** The one family of decimals that the format has no room for: forty digits that need a
      zero in front. */
  predicate Fits(d: Decimal) {
    !(OddPoint(d) && |d.digits| == MAX_DIGITS)
  }

  // --------------------------------------------------------------------------------------
  // What the bytes denote
  // --------------------------------------------------------------------------------------

  ghost function Pow100(k: int): (p: real)
    ensures p > 0.0
  {
    Pow10(2 * k)
  }

  /** The value of a base-100 fraction 0.p1p2p3... */
  ghost function Fraction100(ps: seq<nat>): (f: real)
    ensures f >= 0.0
  {
    if ps == [] then 0.0 else (ps[0] as real + Fraction100(ps[1..])) / 100.0
  }

  ghost function Scaled(ps: seq<nat>, scale: int): real {
    Times(Fraction100(ps), Pow100(scale))
  }

  // The layout of the bytes after the length byte: the sign is the high bit of the exponent
  // byte, which is complemented for negative numbers, and a trailing sentinel is not part of
  // the mantissa.

  predicate BodyNegative(body: seq<int>)
    requires body != []
  {
    body[0] < 128
  }

  function BodyExponent(body: seq<int>): int
    requires body != []
  {
    (if BodyNegative(body) then 255 - body[0] else body[0]) - EXPONENT_BIAS
  }

  function BodyMantissa(body: seq<int>): seq<int>
    requires body != []
  {
    var n := |body|;
    if BodyNegative(body) && n > 1 && body[n - 1] == SENTINEL then body[1..n - 1] else body[1..]
  }

  /** The value of the bytes after the length byte, stated without reference to how they were
      produced: undo the bias and the complement and read the mantissa in base 100. */
  ghost function BodyValue(body: seq<int>): real
    requires body != []
  {
    if body == [ZERO_CODE] then 0.0
    else
      var negative := BodyNegative(body);
      Signed(negative, Scaled(Unbias(negative, BodyMantissa(body)), BodyExponent(body) + 1))
  }

  function Unbias(negative: bool, bs: seq<int>): (ps: seq<nat>)
    ensures |ps| == |bs|
  {
    seq(|bs|, i requires 0 <= i < |bs| => UnbiasByte(negative, bs[i]))
  }

  /** Subtraction on eight bits. */
  function UnbiasByte(negative: bool, b: int): (p: nat)
    ensures p < 256
  {
    (if negative then 101 - b else b - 1) % 256
  }

  lemma {:induction false} FractionOfPairs(ds: seq<nat>)
    requires |ds| % 2 == 0
    ensures Fraction100(Pairs(ds)) == Fraction(ds)
  {
    if ds != [] {
      FractionOfPairs(ds[2..]);
      assert ds[1..][1..] == ds[2..];
      assert Fraction(ds) == (ds[0] as real + (ds[1] as real + Fraction(ds[2..])) / 10.0) / 10.0;
    }
  }

  /** Padding keeps the value. */
  lemma PaddedMagnitude(d: Decimal)
    ensures Scaled(Pairs(Padded(d)), Scale(d)) == Magnitude(d)
  {
    FractionOfPairs(Padded(d));
    PaddedFraction(d);
    if OddPoint(d) {
      ShiftPoint(d.digits, d.point);
    }
  }

  lemma PaddedFraction(d: Decimal)
    ensures Fraction(Padded(d)) == Fraction((if OddPoint(d) then [0] else []) + d.digits)
    ensures !OddPoint(d) ==> Fraction(Padded(d)) == Fraction(d.digits)
    ensures 2 * Scale(d) == if OddPoint(d) then d.point + 1 else d.point
  {
    FractionAppendZero((if OddPoint(d) then [0] else []) + d.digits);
    assert [] + d.digits == d.digits;
  }

  lemma PairsInRange(d: Decimal)
    requires Normalised(d)
    ensures var ps := Pairs(Padded(d));
            && (forall i :: 0 <= i < |ps| ==> ps[i] <= 99)
            && (d.digits != [] ==> |ps| > 0 && ps[0] != 0 && ps[|ps| - 1] != 0)
  {
    var ds := Padded(d);
    var ps := Pairs(ds);
    forall i | 0 <= i < |ps|
      ensures ps[i] == 10 * ds[2 * i] + ds[2 * i + 1] <= 99
    {
      PairsAt(ds, i);
    }
    if d.digits != [] {
      PairsAt(ds, |ps| - 1);
    }
  }

  /** An encoded number occupies at most the 22 bytes of an OCI number exactly when it does not
      have forty digits that need a leading zero; the length byte always counts the bytes
      behind it. */
  lemma EncodedSize(d: Decimal)
    requires Normalised(d)
    ensures Encode(d)[0] == |Encode(d)| - 1
    ensures |Encode(d)| <= 22 <==> Fits(d)
    ensures Fits(d) <==> !(d.point % 2 == 1 && |d.digits| == 40)
    ensures |Encode(d)| <= 23
  {
    var n := |Padded(d)|;
    assert |Encode(d)| == 2 + (if d.digits == [] then 0 else n / 2 + if HasSentinel(d) then 1 else 0);
  }

  /** Every part of an encoded number is a byte. */
  lemma EncodedBytes(d: Decimal)
    requires Normalised(d)
    ensures forall i :: 0 <= i < |Encode(d)| ==> IsByte(Encode(d)[i])
  {
    EncodedSize(d);
    PairsInRange(d);
    var bs := Mantissa(d.negative, Pairs(Padded(d)));
    assert forall i :: 0 <= i < |bs| ==> IsByte(bs[i]);
    assert IsByte(ExponentByte(d.negative, Scale(d)));
    assert Encode(d) == [|Body(d)|] + Body(d);
  }

  /** Removing the bias undoes adding it. */
  lemma UnbiasMantissa(negative: bool, ps: seq<nat>)
    requires forall i :: 0 <= i < |ps| ==> ps[i] <= 99
    ensures Unbias(negative, Mantissa(negative, ps)) == ps
    ensures SENTINEL !in Mantissa(true, ps)
  {
  }

  /** The parts of an encoded non-zero number. */
  lemma BodyParts(d: Decimal)
    requires Normalised(d) && d.digits != []
    ensures var body := Body(d);
            && body != [ZERO_CODE]
            && BodyNegative(body) == d.negative
            && BodyExponent(body) == Scale(d) - 1
            && BodyMantissa(body) == Mantissa(d.negative, Pairs(Padded(d)))
  {
    var ps := Pairs(Padded(d));
    PairsInRange(d);
    UnbiasMantissa(d.negative, ps);
    var body := Body(d);
    assert body[1..] == Mantissa(d.negative, ps) + if HasSentinel(d) then [SENTINEL] else [];
  }

  /** Encoding preserves the value: the bytes denote exactly the number that the sign, the
      decimal point and the digits denote, for every normalised input. */
  lemma EncodePreservesValue(d: Decimal)
    requires Normalised(d)
    ensures BodyValue(Body(d)) == Value(d)
  {
    if d.digits != [] {
      BodyParts(d);
      PairsInRange(d);
      UnbiasMantissa(d.negative, Pairs(Padded(d)));
      PaddedMagnitude(d);
    }
  }

  // --------------------------------------------------------------------------------------
  // Decoding
  // --------------------------------------------------------------------------------------

  /** The digits of the mantissa pairs: the leading zero of the first pair and the trailing
      zero of the last one are dropped, and a pair of 100 or more, which no encoder writes,
      gives three digits. */
  function Unpack(ps: seq<nat>, first: bool): (ds: seq<nat>) {
    if ps == [] then []
    else
      Tens(ps[0], first) + Units(ps[0], |ps| == 1) + Unpack(ps[1..], false)
  }

  function Tens(p: nat, first: bool): seq<nat> {
    if p / 10 == 0 && first then []
    else if p / 10 == 10 then [1, 0]
    else [p / 10]
  }

  function Units(p: nat, last: bool): seq<nat> {
    if p % 10 == 0 && last then [] else [p % 10]
  }

  /** How far the mantissa moves the decimal point. */
  function PointShift(ps: seq<nat>, first: bool): int {
    if ps == [] then 0 else |Tens(ps[0], first)| - 1 + PointShift(ps[1..], false)
  }

  function DecodeBody(body: seq<int>): Decimal
    requires body != []
  {
    var negative := BodyNegative(body);
    if |body| == 1 then
      if negative then Decimal(true, 127, [1]) else Decimal(false, 1, [0])
    else
      var ps := Unbias(negative, BodyMantissa(body));
      Decimal(negative, 2 * BodyExponent(body) + 2 + PointShift(ps, true), Unpack(ps, true))
  }

  /** Sign, decimal point and digits of the number held in `bytes`; nothing when the length
      byte says that the number is damaged. */
  function Decode(bytes: seq<int>): (r: Option<Decimal>)
    requires |bytes| >= 2
    requires 1 <= bytes[0] <= MAX_MANTISSA + 1 ==> |bytes| > bytes[0]
  {
    if 1 <= bytes[0] <= MAX_MANTISSA + 1 then Some(DecodeBody(bytes[1..1 + bytes[0]])) else None
  }

  lemma PairDigits(a: nat, b: nat)
    requires a <= 9 && b <= 9
    ensures (10 * a + b) / 10 == a && (10 * a + b) % 10 == b
  {
  }

  /** The digits that unpacking keeps: all but a zero at the end. */
  function TrimEnd(ds: seq<nat>): seq<nat> {
    if ds != [] && ds[|ds| - 1] == 0 then ds[..|ds| - 1] else ds
  }

  lemma TrimEndAppend(front: seq<nat>, ds: seq<nat>)
    requires ds != []
    ensures TrimEnd(front + ds) == front + TrimEnd(ds)
  {
  }

  /** The two digits of every pair. */
  function Flatten(ps: seq<nat>): (ds: seq<nat>)
    ensures ps == [] <==> ds == []
  {
    if ps == [] then [] else [ps[0] / 10, ps[0] % 10] + Flatten(ps[1..])
  }

  lemma {:induction false} FlattenPairs(ds: seq<nat>)
    requires |ds| % 2 == 0 && AllDigits(ds)
    ensures Flatten(Pairs(ds)) == ds
  {
    if ds != [] {
      var rest := ds[2..];
      FlattenPairs(rest);
      PairDigits(ds[0], ds[1]);
      assert Pairs(ds)[1..] == Pairs(rest);
      assert ds == [ds[0], ds[1]] + rest;
    }
  }

  lemma {:induction false} UnpackRest(ps: seq<nat>)
    requires forall i :: 0 <= i < |ps| ==> ps[i] <= 99
    requires ps != [] ==> ps[|ps| - 1] != 0
    ensures Unpack(ps, false) == TrimEnd(Flatten(ps))
    ensures PointShift(ps, false) == 0
  {
    if |ps| == 1 {
      assert Flatten(ps) == [ps[0] / 10, ps[0] % 10];
    } else if ps != [] {
      var rest := ps[1..];
      UnpackRest(rest);
      assert Unpack(ps, false) == [ps[0] / 10, ps[0] % 10] + Unpack(rest, false);
      TrimEndAppend([ps[0] / 10, ps[0] % 10], Flatten(rest));
    }
  }

  /** Only a zero in front tells the first pair from the others. */
  lemma UnpackFlag(ps: seq<nat>)
    requires ps != [] && ps[0] <= 99
    ensures Unpack(ps, false) == (if ps[0] / 10 == 0 then [0] else []) + Unpack(ps, true)
    ensures PointShift(ps, false) == PointShift(ps, true) + if ps[0] / 10 == 0 then 1 else 0
  {
  }

  lemma DropLeadingZero(u: seq<nat>, ds: seq<nat>)
    requires |ds| >= 2 && ds[0] == 0
    requires [0] + u == TrimEnd(ds)
    ensures u == TrimEnd(ds[1..])
  {
    assert ds == [0] + ds[1..];
    TrimEndAppend([0], ds[1..]);
    assert u == ([0] + u)[1..];
  }

  lemma PaddedForm(d: Decimal)
    ensures OddPoint(d) ==> Padded(d) == [0] + (d.digits + if |d.digits| % 2 == 0 then [0] else [])
    ensures !OddPoint(d) ==> Padded(d) == d.digits + if |d.digits| % 2 == 1 then [0] else []
    ensures 2 * Scale(d) == d.point + (if OddPoint(d) then 1 else 0)
  {
  }

  lemma PaddedEnds(d: Decimal)
    requires Normalised(d) && d.digits != []
    ensures var ds := Padded(d);
            && AllDigits(ds)
            && (ds[0] != 0 || ds[1] != 0)
            && (ds[|ds| - 1] != 0 || ds[|ds| - 2] != 0)
            && (ds[0] == 0 <==> OddPoint(d))
            && d.digits == (if ds[0] == 0 then TrimEnd(ds[1..]) else TrimEnd(ds))
            && 2 * Scale(d) == d.point + (if ds[0] == 0 then 1 else 0)
  {
    PaddedForm(d);
  }

  /** Unpacking the pairs of the padded digits gives back the digits without the padding. */
  lemma UnpackPadded(d: Decimal)
    requires Normalised(d) && d.digits != []
    ensures Unpack(Pairs(Padded(d)), true) == d.digits
    ensures 2 * Scale(d) + PointShift(Pairs(Padded(d)), true) == d.point
  {
    var ds := Padded(d);
    var ps := Pairs(ds);
    PaddedEnds(d);
    PairsInRange(d);
    FlattenPairs(ds);
    assert ps[0] / 10 == ds[0];
    UnpackRest(ps);
    UnpackFlag(ps);
    if ds[0] == 0 {
      DropLeadingZero(Unpack(ps, true), ds);
    }
  }

  lemma DecodeEncodedBody(d: Decimal)
    requires Normalised(d)
    ensures DecodeBody(Body(d)) == if d.digits == [] then Decimal(false, 1, [0]) else d
  {
    if d.digits != [] {
      var ps := Pairs(Padded(d));
      PairsInRange(d);
      BodyParts(d);
      UnbiasMantissa(d.negative, ps);
      UnpackPadded(d);
      assert |Body(d)| > 1;
    }
  }

  /** Decoding undoes encoding on every normalised number that fits; zero comes back as a
      single digit zero, and a number that does not fit is reported as damaged. */
  lemma DecodeEncode(d: Decimal)
    requires Normalised(d)
    ensures Decode(Encode(d)) == if !Fits(d) then None
                                 else if d.digits == [] then Some(Decimal(false, 1, [0]))
                                 else Some(d)
  {
    EncodedSize(d);
    DecodeEncodedBody(d);
    var bytes := Encode(d);
    assert bytes[1..1 + |Body(d)|] == Body(d);
  }

  /** Distinct numbers have distinct encodings. */
  lemma EncodeInjective(a: Decimal, b: Decimal)
    requires Normalised(a) && Normalised(b)
    requires Encode(a) == Encode(b)
    ensures a == b || a.digits == b.digits == []
  {
    DecodeEncodedBody(a);
    DecodeEncodedBody(b);
    assert Body(a) == Encode(a)[1..] && Body(b) == Encode(b)[1..];
  }

  // --------------------------------------------------------------------------------------
  // The code
  // --------------------------------------------------------------------------------------

  /** What one turn of the mantissa loop writes, given the digits as the encoder keeps them:
      the zero that belongs in front is stored at the end, and the first pair consumes one
      digit only. */
  lemma StoredPair(d: Decimal, stored: seq<nat>, i: nat)
    requires d.digits <= stored && |stored| == |Padded(d)|
    requires forall k :: |d.digits| <= k < |stored| ==> stored[k] == 0
    requires i < |stored| / 2
    ensures Pairs(Padded(d))[i]
         == if !OddPoint(d) then 10 * stored[2 * i] + stored[2 * i + 1]
            else if i == 0 then stored[0]
            else 10 * stored[2 * i - 1] + stored[2 * i]
  {
    PairsAt(Padded(d), i);
  }

  /** The test for an odd decimal point index with the remainder as C computes it, and the
      exponent that C's division gives once the index is even. */
  lemma OddPointInC(d: Decimal)
    ensures OddPoint(d) <==> (d.point > 0 && CMod(d.point, 2) == 1) || (d.point < 0 && CMod(d.point, 2) == -1)
    ensures CDiv((if OddPoint(d) then d.point + 1 else d.point) - 2, 2) == Scale(d) - 1
  {
  }

  lemma EncodeLayout(d: Decimal)
    ensures d.digits == [] ==> Encode(d) == [1, ZERO_CODE]
    ensures d.digits != [] ==>
              var length := |Padded(d)| / 2 + 1 + if HasSentinel(d) then 1 else 0;
              Encode(d) == [length, ExponentByte(d.negative, Scale(d))]
                           + Mantissa(d.negative, Pairs(Padded(d)))
                           + if HasSentinel(d) then [SENTINEL] else []
  {
  }

  /** Takes the next pair of digits, or one digit when a zero belongs in front of the first. */
  method TakePair(ghost d: Decimal, prependZero: bool, digits: seq<nat>, i: nat, source: nat) returns (byte: nat, next: nat)
    requires prependZero == OddPoint(d)
    requires d.digits <= digits && |digits| == |Padded(d)|
    requires forall k :: |d.digits| <= k < |digits| ==> digits[k] == 0
    requires i < |Pairs(Padded(d))| && source == if i > 0 && prependZero then 2 * i - 1 else 2 * i
    ensures byte == Pairs(Padded(d))[i]
    ensures next == if prependZero then 2 * i + 1 else 2 * i + 2
  {
    StoredPair(d, digits, i);
    ghost var pair := Pairs(Padded(d))[i];
    if i == 0 && prependZero {
      byte := digits[source];
      next := source + 1;
    } else {
      byte := digits[source] * 10 + digits[source + 1];
      next := source + 2;
    }
    assert byte == pair;
  }

  /** `bytes` have been stored from `pos` on, and nothing else has changed. */
  ghost predicate Put(before: seq<int>, after: seq<int>, pos: nat, bytes: seq<int>) {
    pos + |bytes| <= |before| && after == before[..pos] + bytes + before[pos + |bytes|..]
  }

  /** Storing on where the last bytes ended. */
  lemma PutOn(a: seq<int>, b: seq<int>, c: seq<int>, pos: nat, x: seq<int>, y: seq<int>)
    requires Put(a, b, pos, x) && Put(b, c, pos + |x|, y)
    ensures Put(a, c, pos, x + y)
  {
    assert b[..pos + |x|] == a[..pos] + x;
    assert b[pos + |x| + |y|..] == a[pos + |x| + |y|..];
  }

  method StoreByte(oracleValue: array<int>, pos: nat, byte: int)
    requires pos < oracleValue.Length
    modifies oracleValue
    ensures Put(old(oracleValue[..]), oracleValue[..], pos, [byte])
  {
    oracleValue[pos] := byte;
  }

  /** Stores the next of `bytes`, which start at the third byte. */
  method StoreNext(oracleValue: array<int>, i: nat, byte: int, ghost before: seq<int>, ghost bytes: seq<int>)
    requires i < |bytes| && byte == bytes[i] && 2 + i < oracleValue.Length
    requires Put(before, oracleValue[..], 2, bytes[..i])
    modifies oracleValue
    ensures Put(before, oracleValue[..], 2, bytes[..i + 1])
  {
    ghost var now := oracleValue[..];
    StoreByte(oracleValue, 2 + i, byte);
    assert bytes[..i + 1] == bytes[..i] + [bytes[i]];
    PutOn(before, now, oracleValue[..], 2, bytes[..i], [bytes[i]]);
  }

  /** The mantissa loop: one pair of digits after the other. */
  method WriteMantissa(ghost d: Decimal, isNegative: bool, prependZero: bool, digits: seq<nat>, oracleValue: array<int>)
    requires Normalised(d) && d.digits != [] && isNegative == d.negative && prependZero == OddPoint(d)
    requires d.digits <= digits && |digits| == |Padded(d)|
    requires forall k :: |d.digits| <= k < |digits| ==> digits[k] == 0
    requires oracleValue.Length >= 2 + |digits| / 2
    modifies oracleValue
    ensures Put(old(oracleValue[..]), oracleValue[..], 2, Mantissa(d.negative, Pairs(Padded(d))))
  {
    ghost var bytes := Mantissa(d.negative, Pairs(Padded(d)));
    var numPairs := |digits| / 2;
    var source: nat := 0;
    for i := 0 to numPairs
      invariant source == if i > 0 && prependZero then 2 * i - 1 else 2 * i
      invariant Put(old(oracleValue[..]), oracleValue[..], 2, bytes[..i])
    {
      var byte;
      byte, source := TakePair(d, prependZero, digits, i, source);
      StoreNext(oracleValue, i, MantissaByte(isNegative, byte), old(oracleValue[..]), bytes);
    }
    assert bytes[..numPairs] == bytes;
  }

  /** The parity fix-ups: the digits with their zeroes stored at the end, and the even decimal
      point index. */
  method PadDigits(d: Decimal) returns (prependZero: bool, decimalPointIndex: int, digits: seq<nat>)
    ensures prependZero == OddPoint(d)
    ensures d.digits == [] ==> digits == []
    ensures d.digits != [] ==>
              && d.digits <= digits && |digits| == |Padded(d)|
              && (forall k :: |d.digits| <= k < |digits| ==> digits[k] == 0)
              && CDiv(decimalPointIndex - 2, 2) == Scale(d) - 1
  {
    digits, decimalPointIndex := d.digits, d.point;
    prependZero := (decimalPointIndex > 0 && CMod(decimalPointIndex, 2) == 1)
                || (decimalPointIndex < 0 && CMod(decimalPointIndex, 2) == -1);
    OddPointInC(d);
    if prependZero && |digits| != 0 {
      digits := digits + [0];
      decimalPointIndex := decimalPointIndex + 1;
    }
    if |digits| % 2 == 1 {
      digits := digits + [0];
    }
  }

  /** Writes length and exponent. */
  method WriteHead(isNegative: bool, length: int, decimalPointIndex: int, oracleValue: array<int>)
    requires oracleValue.Length >= 2
    modifies oracleValue
    ensures var e := CDiv(decimalPointIndex - 2, 2) + EXPONENT_BIAS;
            Put(old(oracleValue[..]), oracleValue[..], 0, [length, if isNegative then 255 - e else e])
  {
    var ociExponent := CDiv(decimalPointIndex - 2, 2) + EXPONENT_BIAS;
    oracleValue[0], oracleValue[1] := length, if isNegative then 255 - ociExponent else ociExponent;
  }

  /** The two or three parts of an encoded number. */
  lemma EncodedParts(d: Decimal)
    requires d.digits != []
    ensures var head := [|Padded(d)| / 2 + 1 + (if HasSentinel(d) then 1 else 0), ExponentByte(d.negative, Scale(d))];
            Encode(d) == head + Mantissa(d.negative, Pairs(Padded(d))) + (if HasSentinel(d) then [SENTINEL] else [])
  {
    var m, t := Mantissa(d.negative, Pairs(Padded(d))), if HasSentinel(d) then [SENTINEL] else [];
    var e := ExponentByte(d.negative, Scale(d));
    assert Body(d) == [e] + m + t;
    assert [|Body(d)|] + ([e] + m + t) == [|Body(d)|, e] + m + t;
  }

  /** Writes a number that is not zero: length, exponent, mantissa and, where it belongs, the sentinel. */
  method WriteBytes(
    ghost d: Decimal, isNegative: bool, prependZero: bool, decimalPointIndex: int, digits: seq<nat>, appendSentinel: bool,
    oracleValue: array<int>, ghost head: seq<int>, ghost mantissa: seq<int>)
    requires Normalised(d) && d.digits != [] && prependZero == OddPoint(d) && isNegative == d.negative
    requires d.digits <= digits && |digits| == |Padded(d)|
    requires forall k :: |d.digits| <= k < |digits| ==> digits[k] == 0
    requires var e := CDiv(decimalPointIndex - 2, 2) + EXPONENT_BIAS;
             head == [|digits| / 2 + 1 + (if appendSentinel then 1 else 0), if isNegative then 255 - e else e]
    requires mantissa == Mantissa(d.negative, Pairs(Padded(d))) && |mantissa| == |digits| / 2
    requires oracleValue.Length >= 2 + |mantissa| + if appendSentinel then 1 else 0
    modifies oracleValue
    ensures Put(old(oracleValue[..]), oracleValue[..], 0, head + mantissa + if appendSentinel then [SENTINEL] else [])
  {
    var numPairs := |digits| / 2;
    WriteHead(isNegative, numPairs + 1 + (if appendSentinel then 1 else 0), decimalPointIndex, oracleValue);
    ghost var first := oracleValue[..];
    WriteMantissa(d, isNegative, prependZero, digits, oracleValue);
    PutOn(old(oracleValue[..]), first, oracleValue[..], 0, head, mantissa);
    if appendSentinel {
      ghost var second := oracleValue[..];
      StoreByte(oracleValue, 2 + numPairs, SENTINEL);
      PutOn(old(oracleValue[..]), second, oracleValue[..], 0, head + mantissa, [SENTINEL]);
    } else {
      assert head + mantissa + [] == head + mantissa;
    }
  }

  /** Writes the number into the buffer of an OCI number. */
  method ToOracleNumber(d: Decimal, oracleValue: array<int>)
    requires Normalised(d)
    requires oracleValue.Length >= |Encode(d)|
    modifies oracleValue
    ensures Put(old(oracleValue[..]), oracleValue[..], 0, Encode(d))
  {
    var prependZero, decimalPointIndex, digits := PadDigits(d);
    var appendSentinel := d.negative && |digits| > 0 && |digits| < MAX_DIGITS;
    if |digits| == 0 {
      EncodeLayout(d);
      oracleValue[0], oracleValue[1] := |digits| / 2 + 1, ZERO_CODE;
    } else {
      EncodedParts(d);
      ghost var head := [|Padded(d)| / 2 + 1 + (if HasSentinel(d) then 1 else 0), ExponentByte(d.negative, Scale(d))];
      WriteBytes(d, d.negative, prependZero, decimalPointIndex, digits, appendSentinel, oracleValue,
                 head, Mantissa(d.negative, Pairs(Padded(d))));
    }
  }

  // --------------------------------------------------------------------------------------
  // The reader and its array of forty digits
  // --------------------------------------------------------------------------------------

  /** The array that the callers of the reader provide has room for forty digits; the reader can
      write at most twenty more behind them. */
  const DIGIT_SPACE := 60

  /** How many of the pairs give three digits. */
  function Hundreds(ps: seq<nat>): nat {
    if ps == [] then 0 else (if 100 <= ps[0] < 110 then 1 else 0) + Hundreds(ps[1..])
  }

  lemma {:induction false} UnpackCount(ps: seq<nat>, first: bool)
    requires ps != []
    ensures |Unpack(ps, first)|
         == 2 * |ps| + Hundreds(ps) - (if first && ps[0] < 10 then 1 else 0) - (if ps[|ps| - 1] % 10 == 0 then 1 else 0)
  {
    if |ps| == 1 {
      assert Unpack(ps[1..], false) == [] && Hundreds(ps[1..]) == 0;
    } else {
      UnpackCount(ps[1..], false);
    }
  }

  lemma {:induction false} HundredsBound(ps: seq<nat>)
    ensures Hundreds(ps) <= |ps|
    ensures (forall i :: 0 <= i < |ps| ==> ps[i] < 100) ==> Hundreds(ps) == 0
  {
    if ps != [] {
      HundredsBound(ps[1..]);
    }
  }

  /** The mantissa of a number, read as pairs. */
  function PairsOf(bytes: seq<int>): seq<nat>
    requires |bytes| >= 2 && 1 <= bytes[0] <= MAX_MANTISSA + 1 && |bytes| > bytes[0]
  {
    var body := bytes[1..1 + bytes[0]];
    Unbias(BodyNegative(body), BodyMantissa(body))
  }

  /** The digits of the bytes fit the array: each pair of 100 to 109 has a digit too many, which only a
      zero at either end of the mantissa makes up for. */
  predicate DigitsFit(bytes: seq<int>)
    requires |bytes| >= 2 && 1 <= bytes[0] <= MAX_MANTISSA + 1 && |bytes| > bytes[0]
  {
    var ps := PairsOf(bytes);
    ps == [] ||
    2 * |ps| + Hundreds(ps) <= MAX_DIGITS + (if ps[0] < 10 then 1 else 0) + (if ps[|ps| - 1] % 10 == 0 then 1 else 0)
  }

  /** The reader stays within the forty digits exactly for such bytes, and never leaves the sixty. */
  lemma DigitsFitExact(bytes: seq<int>)
    requires |bytes| >= 2 && 1 <= bytes[0] <= 21 && |bytes| > bytes[0]
    ensures Decode(bytes).Some? && |Decode(bytes).value.digits| <= 60
    ensures |Decode(bytes).value.digits| <= 40 <==> DigitsFit(bytes)
  {
    var body, ps := bytes[1..1 + bytes[0]], PairsOf(bytes);
    assert |ps| <= MAX_MANTISSA;
    HundredsBound(ps);
    if ps != [] {
      UnpackCount(ps, true);
    }
  }

  /** Every number that was encoded, and every mantissa without a pair of 100 or more, fits. */
  lemma EncodedDigitsFit(d: Decimal)
    requires Normalised(d) && Fits(d)
    ensures var bytes := Encode(d);
            1 <= bytes[0] <= 21 && |bytes| > bytes[0] && DigitsFit(bytes)
  {
    EncodedSize(d);
    DecodeEncode(d);
    DigitsFitExact(Encode(d));
  }

  /** Twenty bytes of 102 behind the exponent of a positive number: sixty digits. */
  function Overlong(n: nat): seq<int> {
    [n + 1, EXPONENT_BIAS] + seq(n, _ => 102)
  }

  lemma {:induction false} AllHundreds(n: nat)
    ensures Hundreds(seq(n, _ => 101)) == n
  {
    if n > 0 {
      assert seq(n, _ => 101)[1..] == seq(n - 1, _ => 101);
      AllHundreds(n - 1);
    }
  }

  lemma OverlongPairs(n: nat)
    requires 0 < n <= MAX_MANTISSA
    ensures PairsOf(Overlong(n)) == seq(n, _ => 101)
  {
    var bytes := Overlong(n);
    assert bytes[1..1 + bytes[0]] == [EXPONENT_BIAS] + seq(n, _ => 102);
  }

  /** Every pair of such a mantissa gives three digits. */
  lemma OverlongDigits(n: nat)
    requires 0 < n <= MAX_MANTISSA
    ensures Decode(Overlong(n)).Some? && |Decode(Overlong(n)).value.digits| == 3 * n
  {
    var ps := PairsOf(Overlong(n));
    OverlongPairs(n);
    AllHundreds(n);
    UnpackCount(ps, true);
    assert Decode(Overlong(n)).value.digits == Unpack(ps, true);
  }

  /** From fourteen such bytes on the array of forty digits is too small; twenty give sixty digits. */
  lemma OverlongOverruns(n: nat)
    requires 0 < n <= 20
    ensures |Overlong(n)| == n + 2 <= 22 && forall i :: 0 <= i < |Overlong(n)| ==> IsByte(Overlong(n)[i])
    ensures DigitsFit(Overlong(n)) <==> 3 * n <= 40
  {
    OverlongDigits(n);
    DigitsFitExact(Overlong(n));
  }

  method StoreDigit(digits: array<nat>, target: nat, digit: nat) returns (next: nat)
    requires target < digits.Length
    modifies digits
    ensures next == target + 1
    ensures digits[..next] == old(digits[..target]) + [digit] && digits[next..] == old(digits[next..])
  {
    digits[target] := digit;
    next := target + 1;
  }

  method StoreTens(byte: nat, first: bool, digits: array<nat>, target: nat, point: int, count: int)
    returns (next: nat, decimalPointIndex: int, numDigits: int)
    requires target + 2 <= digits.Length
    modifies digits
    ensures next == target + |Tens(byte, first)|
    ensures digits[..next] == old(digits[..target]) + Tens(byte, first) && digits[next..] == old(digits[next..])
    ensures decimalPointIndex == point + |Tens(byte, first)| - 1 && numDigits == count + |Tens(byte, first)| - 1
  {
    next, decimalPointIndex, numDigits := target, point, count;
    var digit := byte / 10;
    if digit == 0 && first {
      numDigits := numDigits - 1;
      decimalPointIndex := decimalPointIndex - 1;
    } else if digit == 10 {
      numDigits := numDigits + 1;
      decimalPointIndex := decimalPointIndex + 1;
      digits[next], digits[next + 1] := 1, 0;
      next := next + 2;
    } else {
      next := StoreDigit(digits, next, digit);
    }
  }

  /** Puts the digits of one pair behind those that are there; `numDigits` was counted beforehand and
      is corrected. */
  method StorePair(byte: nat, first: bool, last: bool, digits: array<nat>, target: nat, point: int, count: int)
    returns (next: nat, decimalPointIndex: int, numDigits: int)
    requires target + 3 <= digits.Length
    modifies digits
    ensures next == target + |Tens(byte, first)| + |Units(byte, last)|
    ensures digits[..next] == old(digits[..target]) + (Tens(byte, first) + Units(byte, last))
    ensures digits[next..] == old(digits[next..])
    ensures decimalPointIndex == point + |Tens(byte, first)| - 1
    ensures numDigits == count + |Tens(byte, first)| + |Units(byte, last)| - 2
  {
    next, decimalPointIndex, numDigits := StoreTens(byte, first, digits, target, point, count);
    ghost var middle, now := next, digits[..];
    var digit := byte % 10;
    if digit == 0 && last {
      numDigits := numDigits - 1;
    } else {
      next := StoreDigit(digits, next, digit);
    }
    assert now[next..] == now[middle..][next - middle..] == old(digits[middle..])[next - middle..] == old(digits[next..]);
  }

  lemma UnpackStep(ps: seq<nat>, i: nat)
    requires i < |ps|
    ensures Unpack(ps[i..], i == 0) == Tens(ps[i], i == 0) + Units(ps[i], i == |ps| - 1) + Unpack(ps[i + 1..], false)
    ensures PointShift(ps[i..], i == 0) == |Tens(ps[i], i == 0)| - 1 + PointShift(ps[i + 1..], false)
  {
    assert ps[i..][1..] == ps[i + 1..];
  }

  lemma Regroup(a: seq<nat>, b: seq<nat>, c: seq<nat>)
    ensures a + (b + c) == a + b + c
  {
  }

  /** The first `i` pairs have been unpacked into `ds`. */
  ghost predicate Unpacked(ps: seq<nat>, i: nat, ds: seq<nat>) {
    i <= |ps| && ds + Unpack(ps[i..], i == 0) == Unpack(ps, true)
  }

  lemma UnpackOne(ps: seq<nat>, i: nat, ds: seq<nat>)
    requires i < |ps| && Unpacked(ps, i, ds)
    ensures Unpacked(ps, i + 1, ds + (Tens(ps[i], i == 0) + Units(ps[i], i == |ps| - 1)))
  {
    UnpackStep(ps, i);
    Regroup(ds, Tens(ps[i], i == 0) + Units(ps[i], i == |ps| - 1), Unpack(ps[i + 1..], false));
  }

  /** Where the reader stands after `i` pairs: what it has stored, and the point and the count as they
      have been corrected so far. */
  ghost predicate ReaderAt(
    ps: seq<nat>, i: nat, start: int, before: seq<nat>, now: seq<nat>, target: nat, point: int, count: int)
  {
    && |now| == |before| && target <= 3 * i && target <= |now| && Unpacked(ps, i, now[..target])
    && now[target..] == before[target..]
    && point + PointShift(ps[i..], i == 0) == start + PointShift(ps, true)
    && count == target + 2 * (|ps| - i)
  }

  /** One turn of the loop. */
  method ReadPair(
    ghost ps: seq<nat>, i: nat, byte: nat, last: bool, ghost start: int, ghost before: seq<nat>, digits: array<nat>,
    target: nat, point: int, count: int)
    returns (next: nat, decimalPointIndex: int, numDigits: int)
    requires i < |ps| <= MAX_MANTISSA && byte == ps[i] && last == (i == |ps| - 1) && digits.Length == DIGIT_SPACE
    requires ReaderAt(ps, i, start, before, digits[..], target, point, count)
    modifies digits
    ensures ReaderAt(ps, i + 1, start, before, digits[..], next, decimalPointIndex, numDigits)
  {
    UnpackOne(ps, i, digits[..target]);
    UnpackStep(ps, i);
    ghost var now := digits[..];
    next, decimalPointIndex, numDigits := StorePair(byte, i == 0, last, digits, target, point, count);
    assert now[next..] == now[target..][next - target..] == before[target..][next - target..] == before[next..];
  }

  /** The mantissa loop of the reader; the digits are stored one by one and counted apart from that. */
  method ParseMantissa(isNegative: bool, point: int, source: seq<int>, digits: array<nat>)
    returns (decimalPointIndex: int, numDigits: int)
    requires |source| <= 20 && digits.Length == 60
    modifies digits
    ensures var ds := Unpack(Unbias(isNegative, source), true);
            numDigits == |ds| <= digits.Length && digits[..numDigits] == ds && digits[numDigits..] == old(digits[numDigits..])
    ensures decimalPointIndex == point + PointShift(Unbias(isNegative, source), true)
  {
    var length := |source|;
    decimalPointIndex, numDigits := point, length * 2;
    ghost var ps := Unbias(isNegative, source);
    var target: nat := 0;
    assert ps[0..] == ps && digits[..0] == [];
    for i := 0 to length
      invariant ReaderAt(ps, i, point, old(digits[..]), digits[..], target, decimalPointIndex, numDigits)
    {
      target, decimalPointIndex, numDigits :=
        ReadPair(ps, i, UnbiasByte(isNegative, source[i]), i == length - 1, point, old(digits[..]), digits,
                 target, decimalPointIndex, numDigits);
    }
    assert ps[length..] == [];
  }

  /** Where the mantissa lies in the bytes of a number. */
  lemma MantissaOf(bytes: seq<int>, length: nat)
    requires |bytes| == NUMBER_SIZE && bytes[0] == length + 1 && 0 < length <= MAX_MANTISSA
    ensures var n := if bytes[1] < 128 && bytes[1 + length] == SENTINEL then length - 1 else length;
            BodyMantissa(bytes[1..2 + length]) == bytes[2..2 + n]
  {
    var body := bytes[1..2 + length];
    assert |body| == length + 1 && body[0] == bytes[1] && body[|body| - 1] == bytes[1 + length];
    SliceOfSlice(bytes, 1, 2 + length, 1, length);
    SliceOfSlice(bytes, 1, 2 + length, 1, length + 1);
    assert body[1..] == bytes[2..2 + length];
    if bytes[1] < 128 && bytes[1 + length] == SENTINEL {
      assert BodyMantissa(body) == body[1..length];
    } else {
      assert BodyMantissa(body) == body[1..];
    }
  }

  lemma SliceOfSlice(bytes: seq<int>, lo: nat, hi: nat, from: nat, to: nat)
    requires from <= to && lo + to <= hi <= |bytes|
    ensures bytes[lo..hi][from..to] == bytes[lo + from..lo + to]
  {
    var s, t := bytes[lo..hi][from..to], bytes[lo + from..lo + to];
    assert |s| == |t|;
    assert forall i :: 0 <= i < |s| ==> s[i] == t[i];
  }

  /** Reads a number out of the buffer of an OCI number. The first forty digits of the array are the
      caller's. */
  method ParseOracleNumber(oracleValue: array<int>, digits: array<nat>)
    returns (status: Status, isNegative: bool, decimalPointIndex: int, numDigits: int)
    requires oracleValue.Length == 22 && digits.Length == 60
    requires forall i :: 0 <= i < oracleValue.Length ==> IsByte(oracleValue[i])
    modifies digits
    ensures status == Failure <==> Decode(old(oracleValue[..])) == None
    ensures status == Failure <==> !(1 <= old(oracleValue[0]) <= 21)
    ensures status == Failure ==> digits[..] == old(digits[..])
    ensures status == Success ==>
              && 0 <= numDigits <= 60
              && Decode(old(oracleValue[..])) == Some(Decimal(isNegative, decimalPointIndex, digits[..numDigits]))
              && digits[numDigits..] == old(digits[numDigits..])
  {
    isNegative, decimalPointIndex, numDigits := false, 0, 0;
    ghost var bytes := oracleValue[..];
    var length := (oracleValue[0] - 1) % 256;
    if length > MAX_MANTISSA {
      return Failure, isNegative, decimalPointIndex, numDigits;
    }
    status := Success;
    isNegative := oracleValue[1] < 128;
    var ociExponent := (if isNegative then 255 - oracleValue[1] else oracleValue[1]) - EXPONENT_BIAS;
    decimalPointIndex := ociExponent * 2 + 2;
    if length == 0 {
      if isNegative {
        digits[0], decimalPointIndex := 1, 127;
      } else {
        digits[0], decimalPointIndex := 0, 1;
      }
      numDigits := 1;
      assert |bytes[1..2]| == 1 && digits[..1] == [digits[0]];
      return;
    }
    MantissaOf(bytes, length);
    ghost var body := bytes[1..2 + length];
    if isNegative && oracleValue[2 + length - 1] == SENTINEL {
      length := length - 1;
    }
    decimalPointIndex, numDigits := ParseMantissa(isNegative, decimalPointIndex, oracleValue[2..2 + length], digits);
    assert Decode(bytes) == Some(DecodeBody(body));
  }
}
