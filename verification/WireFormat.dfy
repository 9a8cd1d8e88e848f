/** The bytes of an Oracle NUMBER written out (support/dpiData.c and support/dpiUtils.c): what the
    encoder stores and what the decoder makes of it, without the names that the two share. */
module WireFormat {
  import opened Common
  import opened Decimals
  import opened OracleNumber
  import NumberLimits

  /** Zero is a single byte behind its length. */
  lemma ZeroBytes(d: Decimal)
    requires Normalised(d)
    ensures d.digits == [] <==> Encode(d) == [1, 128]
  {
    if d.digits != [] {
      EncodedBytes(d);
      assert |Encode(d)| >= 3;
    }
  }

  lemma ScaleBounds(d: Decimal)
    requires Normalised(d) && d.digits != []
    ensures Pow10(2 * Scale(d) - 2) <= Magnitude(d) < Pow10(2 * Scale(d))
  {
    PaddedForm(d);
    NumberLimits.MagnitudeBounds(d);
    Pow10Monotone(2 * Scale(d) - 2, d.point - 1);
    Pow10Monotone(d.point, 2 * Scale(d));
  }

  /** The second byte. */
  function SecondByte(d: Decimal): int {
    Encode(d)[1]
  }

  lemma ExponentAt(d: Decimal)
    requires Normalised(d) && d.digits != []
    ensures SecondByte(d) == if d.negative then 63 - Scale(d) else 192 + Scale(d)
    ensures d.negative <==> SecondByte(d) < 128
  {
    EncodeLayout(d);
  }

  lemma PowersAt(k: int, e: int, m: real)
    requires 2 * e == k - 2 && Pow10(k - 2) <= m < Pow10(k)
    ensures Pow10(2 * e) <= m < Pow10(2 * e + 2)
  {
  }

  /** The exponent byte of a number of 100^e or more but less than 100^(e + 1) is 193 + e, or 62 - e if the
      number is negative. */
  lemma ExponentOf(d: Decimal, e: int)
    requires Normalised(d) && d.digits != []
    requires e == if d.negative then 62 - SecondByte(d) else SecondByte(d) - 193
    ensures Pow10(2 * e) <= Magnitude(d) < Pow10(2 * e + 2)
    ensures d.negative <==> SecondByte(d) < 128
  {
    ExponentAt(d);
    ScaleBounds(d);
    PowersAt(2 * Scale(d), e, Magnitude(d));
  }

  lemma MantissaAt(d: Decimal, i: nat)
    requires d.digits != [] && i < |Pairs(Padded(d))|
    ensures 2 + i < |Encode(d)| && Encode(d)[2 + i] == MantissaByte(d.negative, Pairs(Padded(d))[i])
  {
    EncodeLayout(d);
  }

  /** Each pair of digits is one byte: one more than the pair, or 101 less the pair in a negative number. */
  lemma PairBytes(d: Decimal, i: nat, pair: nat)
    requires d.digits != [] && 2 * i + 1 < |Padded(d)|
    requires pair == 10 * Padded(d)[2 * i] + Padded(d)[2 * i + 1]
    ensures 2 + i < |Encode(d)| && Encode(d)[2 + i] == if d.negative then 101 - pair else pair + 1
  {
    PairsAt(Padded(d), i);
    MantissaAt(d, i);
  }

  /** A negative number of less than forty digits, the padding included, ends with a byte 102; every other
      one ends with its last pair. */
  lemma Ending(d: Decimal)
    requires Normalised(d) && d.digits != []
    ensures |Encode(d)| == 2 + |Padded(d)| / 2 + if d.negative && |Padded(d)| < 40 then 1 else 0
    ensures d.negative && |Padded(d)| < 40 ==> Encode(d)[|Encode(d)| - 1] == 102
    ensures Encode(d)[0] == |Encode(d)| - 1
  {
    EncodeLayout(d);
    EncodedSize(d);
  }

  /** The sign is the high bit of the first byte; the last byte of a negative mantissa is no digits if it is
      102; the exponent is the first byte less 193, or 62 less that byte. */
  lemma DecodedParts(body: seq<int>)
    requires |body| > 1
    ensures var negative := body[0] < 128;
            var bytes := if negative && body[|body| - 1] == 102 then body[1..|body| - 1] else body[1..];
            var pairs := seq(|bytes|, i requires 0 <= i < |bytes| => (if negative then 101 - bytes[i] else bytes[i] - 1) % 256);
            var e := if negative then 62 - body[0] else body[0] - 193;
            DecodeBody(body) == Decimal(negative, 2 * e + 2 + PointShift(pairs, true), Unpack(pairs, true))
  {
    var negative := body[0] < 128;
    var bytes := if negative && body[|body| - 1] == 102 then body[1..|body| - 1] else body[1..];
    var pairs := seq(|bytes|, i requires 0 <= i < |bytes| => (if negative then 101 - bytes[i] else bytes[i] - 1) % 256);
    assert BodyMantissa(body) == bytes;
    assert Unbias(negative, bytes) == pairs;
  }

  /** A single byte is zero, or -1E126 if its high bit is not set. */
  lemma DecodedSingle(byte: int)
    ensures DecodeBody([byte]) == if byte < 128 then Decimal(true, 127, [1]) else Decimal(false, 1, [0])
  {
  }

  /** The digits of a pair write the pair, whatever the byte was, in one to three places; the first pair loses
      a zero in front, and the last one a zero behind. */
  lemma PairDigitsWrite(p: nat)
    requires p < 256
    ensures Whole(Tens(p, false) + Units(p, false)) == Whole(Tens(p, true) + Units(p, false)) == p
    ensures Whole(Tens(p, false) + Units(p, true)) == if p % 10 == 0 then p / 10 else p
    ensures |Tens(p, false)| == (if 100 <= p < 110 then 2 else 1) && |Units(p, false)| == 1
    ensures Tens(p, true) == (if p < 10 then [] else Tens(p, false))
    ensures p < 110 ==> AllDigits(Tens(p, false) + Units(p, false))
  {
    WholeOfFew(p / 10, p % 10);
    assert [] + Units(p, false) == [p % 10] && Tens(p, false) + [] == Tens(p, false);
    assert [1, 0] + [p % 10] == [1, 0, p % 10];
  }

  lemma WholeOfFew(a: nat, b: nat)
    ensures Whole([b]) == b && Whole([a]) == a && Whole([a] + [b]) == 10 * a + b
    ensures Whole([1, 0]) == 10 && Whole([1, 0, b]) == 100 + b
  {
    assert [b][..0] == [] && [a][..0] == [] && [1][..0] == [];
    assert ([a] + [b])[..1] == [a] && [1, 0][..1] == [1] && [1, 0, b][..2] == [1, 0];
  }

  /** Minus five. */
  lemma MinusFive()
    ensures Encode(Decimal(true, 1, [5])) == [3, 62, 96, 102]
    ensures Decode([3, 62, 96, 102]) == Some(Decimal(true, 1, [5]))
  {
    var d := Decimal(true, 1, [5]);
    assert Padded(d) == [0, 5];
    assert Pairs([0, 5]) == [5] + Pairs([]);
    EncodeLayout(d);
    DecodeEncode(d);
  }

  lemma TwelvePairs(d: Decimal)
    requires d == Decimal(false, 2, [1, 2, 3, 4, 5])
    ensures Padded(d) == [1, 2, 3, 4, 5, 0] && Pairs(Padded(d)) == [12, 34, 50]
  {
    assert Pairs([1, 2, 3, 4, 5, 0]) == [12] + Pairs([3, 4, 5, 0]) && Pairs([3, 4, 5, 0]) == [34] + Pairs([5, 0]);
    assert Pairs([5, 0]) == [50] + Pairs([]);
  }

  /** 12.345. */
  lemma Twelve()
    ensures Encode(Decimal(false, 2, [1, 2, 3, 4, 5])) == [4, 193, 13, 35, 51]
    ensures Decode([4, 193, 13, 35, 51]) == Some(Decimal(false, 2, [1, 2, 3, 4, 5]))
  {
    var d := Decimal(false, 2, [1, 2, 3, 4, 5]);
    TwelvePairs(d);
    EncodeLayout(d);
    DecodeEncode(d);
  }
}
