/** Comparing encoded numbers byte by byte is comparing their values. */
module NumberOrder {
  import opened Decimals
  import opened OracleNumber

  /** Lexicographic comparison; a proper prefix counts as smaller. */
  ghost predicate LexLess(a: seq<int>, b: seq<int>) {
    b != [] && (a == [] || a[0] < b[0] || (a[0] == b[0] && LexLess(a[1..], b[1..])))
  }

  lemma {:induction false} LexTotal(a: seq<int>, b: seq<int>)
    ensures a == b || LexLess(a, b) || LexLess(b, a)
  {
    if a != [] && b != [] {
      LexTotal(a[1..], b[1..]);
      assert a == [a[0]] + a[1..] && b == [b[0]] + b[1..];
    }
  }

  lemma {:induction false} LexIrreflexive(a: seq<int>)
    ensures !LexLess(a, a)
  {
    if a != [] {
      LexIrreflexive(a[1..]);
    }
  }

  lemma {:induction false} LexAsymmetric(a: seq<int>, b: seq<int>)
    requires LexLess(a, b)
    ensures !LexLess(b, a)
  {
    if a != [] && a[0] == b[0] {
      LexAsymmetric(a[1..], b[1..]);
    }
  }

  lemma {:induction false} PrefixLess(a: seq<int>, x: int)
    ensures LexLess(a, a + [x])
  {
    if a != [] {
      PrefixLess(a[1..], x);
      assert (a + [x])[1..] == a[1..] + [x];
    }
  }

  lemma LexCons(x: int, a: seq<int>, y: int, b: seq<int>)
    ensures LexLess([x] + a, [y] + b) <==> x < y || (x == y && LexLess(a, b))
  {
    assert ([x] + a)[1..] == a && ([y] + b)[1..] == b;
  }

  /** Base-100 digits without a zero at the end. */
  ghost predicate Trimmed(ps: seq<nat>) {
    && (forall i :: 0 <= i < |ps| ==> ps[i] <= 99)
    && (ps != [] ==> ps[|ps| - 1] != 0)
  }

  lemma {:induction false} Fraction100Bounds(ps: seq<nat>)
    requires Trimmed(ps)
    ensures Fraction100(ps) < 1.0
    ensures ps != [] ==> Fraction100(ps) > 0.0
  {
    if ps != [] {
      Fraction100Bounds(ps[1..]);
    }
  }

  lemma {:induction false} MantissaOrder(pa: seq<nat>, pb: seq<nat>)
    requires Trimmed(pa) && Trimmed(pb) && LexLess(pa, pb)
    ensures Fraction100(pa) < Fraction100(pb)
  {
    Fraction100Bounds(pa);
    Fraction100Bounds(pb);
    if pa != [] {
      Fraction100Bounds(pa[1..]);
      Fraction100Bounds(pb[1..]);
      if pa[0] == pb[0] {
        MantissaOrder(pa[1..], pb[1..]);
      }
    }
  }

  /** The mantissa bytes with the sentinel, when there is room for `limit` pairs. */
  ghost function Tail(negative: bool, ps: seq<nat>, limit: int): seq<int> {
    Mantissa(negative, ps) + if negative && |ps| < limit then [SENTINEL] else []
  }

  lemma TailCons(negative: bool, ps: seq<nat>, limit: int)
    requires ps != []
    ensures Tail(negative, ps, limit) == [MantissaByte(negative, ps[0])] + Tail(negative, ps[1..], limit - 1)
  {
  }

  /** Mantissa bytes of positive numbers compare as the pairs do. */
  lemma {:induction false} PositiveTail(pa: seq<nat>, pb: seq<nat>, limit: int)
    requires LexLess(Tail(false, pa, limit), Tail(false, pb, limit))
    ensures LexLess(pa, pb)
  {
    if pa != [] && pb != [] {
      TailCons(false, pa, limit);
      TailCons(false, pb, limit);
      LexCons(MantissaByte(false, pa[0]), Tail(false, pa[1..], limit - 1), MantissaByte(false, pb[0]), Tail(false, pb[1..], limit - 1));
      if pa[0] == pb[0] {
        PositiveTail(pa[1..], pb[1..], limit - 1);
      }
    }
  }

  /** Mantissa bytes of negative numbers compare the other way round, because the sentinel is above
      every mantissa byte and a shorter mantissa compares as the larger one; unless there is no room
      for the sentinel. */
  lemma {:induction false} NegativeTail(pa: seq<nat>, pb: seq<nat>, limit: int)
    requires LexLess(Tail(true, pa, limit), Tail(true, pb, limit))
    ensures LexLess(pb, pa) || (limit <= |pa| < |pb| && pa == pb[..|pa|])
  {
    if pa != [] && pb != [] {
      TailCons(true, pa, limit);
      TailCons(true, pb, limit);
      LexCons(MantissaByte(true, pa[0]), Tail(true, pa[1..], limit - 1), MantissaByte(true, pb[0]), Tail(true, pb[1..], limit - 1));
      if pa[0] == pb[0] {
        NegativeTail(pa[1..], pb[1..], limit - 1);
        assert pa == [pa[0]] + pa[1..] && pb == [pb[0]] + pb[1..];
      }
    } else if pa == [] {
      if pb != [] {
        TailCons(true, pb, limit);
      } else {
        LexIrreflexive(Tail(true, pa, limit));
      }
    }
  }

  /** An encoded non-zero number as its exponent byte and the rest. */
  lemma BodyAsTail(d: Decimal)
    requires Normalised(d) && d.digits != []
    ensures var ps := Pairs(Padded(d));
            && Trimmed(ps) && ps != [] && ps[0] != 0 && |ps| <= MAX_MANTISSA + 1
            && Body(d) == [ExponentByte(d.negative, Scale(d))] + Tail(d.negative, ps, MAX_MANTISSA)
            && Magnitude(d) == Scaled(ps, Scale(d))
            && (ExponentByte(d.negative, Scale(d)) < 128 <==> d.negative)
  {
    PairsInRange(d);
    PaddedMagnitude(d);
    BodyEnds(d);
  }

  lemma BodyEnds(d: Decimal)
    requires Normalised(d) && d.digits != []
    ensures Body(d) == [ExponentByte(d.negative, Scale(d))] + Tail(d.negative, Pairs(Padded(d)), MAX_MANTISSA)
    ensures |Pairs(Padded(d))| <= MAX_MANTISSA + 1
    ensures ExponentByte(d.negative, Scale(d)) < 128 <==> d.negative
  {
    var e, m := ExponentByte(d.negative, Scale(d)), Mantissa(d.negative, Pairs(Padded(d)));
    var t := if HasSentinel(d) then [SENTINEL] else [];
    assert [e] + m + t == [e] + (m + t);
  }

  lemma Pow100Less(j: int, k: int)
    requires j < k
    ensures 100.0 * Pow100(j) <= Pow100(k)
  {
    Pow10Step(2 * j);
    Pow10Step(2 * j + 1);
    Pow10Monotone(2 * j + 2, 2 * k);
  }

  lemma MagnitudePositive(ps: seq<nat>, scale: int)
    requires Trimmed(ps) && ps != []
    ensures 0.0 < Scaled(ps, scale)
  {
    Fraction100Bounds(ps);
    TimesLess(0.0, Fraction100(ps), Pow100(scale));
    TimesUnits(Pow100(scale));
  }

  lemma TimesAtLeast(f: real, p: real, q: real)
    requires 100.0 * f >= 1.0 && q >= 100.0 * p && p > 0.0
    ensures Times(f, q) >= p
  {
    assert f * q >= f * (100.0 * p) == (100.0 * f) * p >= 1.0 * p;
  }

  /** The smaller exponent belongs to the smaller magnitude. */
  lemma ScaleOrder(pa: seq<nat>, ka: int, pb: seq<nat>, kb: int)
    requires Trimmed(pa) && Trimmed(pb) && pb != [] && pb[0] != 0 && ka < kb
    ensures Scaled(pa, ka) < Scaled(pb, kb)
  {
    Fraction100Bounds(pa);
    TimesLess(Fraction100(pa), 1.0, Pow100(ka));
    TimesUnits(Pow100(ka));
    Pow100Less(ka, kb);
    TimesAtLeast(Fraction100(pb), Pow100(ka), Pow100(kb));
  }

  lemma SameScaleOrder(pa: seq<nat>, pb: seq<nat>, k: int)
    requires Trimmed(pa) && Trimmed(pb) && LexLess(pa, pb)
    ensures Scaled(pa, k) < Scaled(pb, k)
  {
    MantissaOrder(pa, pb);
    TimesLess(Fraction100(pa), Fraction100(pb), Pow100(k));
  }

  /** Magnitudes in the order of scale and mantissa. */
  lemma ScaledOrder(pa: seq<nat>, ka: int, pb: seq<nat>, kb: int)
    requires Trimmed(pa) && Trimmed(pb) && pb != [] && pb[0] != 0
    requires ka < kb || (ka == kb && LexLess(pa, pb))
    ensures Scaled(pa, ka) < Scaled(pb, kb)
  {
    if ka < kb {
      ScaleOrder(pa, ka, pb, kb);
    } else {
      SameScaleOrder(pa, pb, ka);
    }
  }

  // --------------------------------------------------------------------------------------
  // The numbers whose order is lost
  // --------------------------------------------------------------------------------------

  lemma {:induction false} PairsAppend(ds: seq<nat>, a: nat, b: nat)
    requires |ds| % 2 == 0
    ensures Pairs(ds + [a, b]) == Pairs(ds) + [10 * a + b]
  {
    if ds == [] {
      assert ds + [a, b] == [a, b];
    } else {
      var rest := ds[2..];
      PairsAppend(rest, a, b);
      assert (ds + [a, b])[2..] == rest + [a, b];
      assert Pairs(ds + [a, b]) == [10 * ds[0] + ds[1]] + Pairs(rest + [a, b]);
    }
  }

  lemma MantissaAppend(ps: seq<nat>, p: nat)
    ensures Mantissa(true, ps + [p]) == Mantissa(true, ps) + [101 - p]
  {
  }

  lemma BodyWithoutSentinel(d: Decimal)
    requires d.negative && d.digits != [] && !HasSentinel(d)
    ensures Body(d) == [ExponentByte(true, Scale(d))] + Mantissa(true, Pairs(Padded(d)))
  {
    assert [ExponentByte(true, Scale(d))] + Mantissa(true, Pairs(Padded(d))) + []
        == [ExponentByte(true, Scale(d))] + Mantissa(true, Pairs(Padded(d)));
  }

  /** One more pair is one more byte when neither number carries the sentinel. */
  lemma BodyAppend(a: Decimal, b: Decimal, p: nat)
    requires a.negative && b.negative && a.digits != [] && b.digits != []
    requires !HasSentinel(a) && !HasSentinel(b) && Scale(a) == Scale(b)
    requires Pairs(Padded(b)) == Pairs(Padded(a)) + [p]
    ensures Body(b) == Body(a) + [101 - p]
  {
    MantissaAppend(Pairs(Padded(a)), p);
    BodyWithoutSentinel(a);
    BodyWithoutSentinel(b);
  }

  /** `b` is negative and does not fit, and `a` is what is left of it when its last pair of digits is
      cut off. Neither carries the sentinel, so the bytes of `a` start those of `b`. */
  predicate CutOf(a: Decimal, b: Decimal) {
    && a.negative && b.negative && a.point == b.point && OddPoint(b) && |b.digits| == MAX_DIGITS
    && (a.digits == b.digits[..39] || (b.digits[38] == 0 && a.digits == b.digits[..38]))
  }

  /** Cutting off the last pair. */
  lemma CutPairs(a: Decimal, b: Decimal)
    requires Normalised(a) && Normalised(b) && CutOf(a, b)
    ensures |Pairs(Padded(a))| == MAX_MANTISSA && Scale(a) == Scale(b)
    ensures Pairs(Padded(b)) == Pairs(Padded(a)) + [10 * b.digits[39]]
  {
    var ds := Padded(a);
    assert ds == [0] + b.digits[..39];
    assert Padded(b) == ds + [b.digits[39], 0];
    PairsAppend(ds, b.digits[39], 0);
  }

  /** The order is lost between a number and what is left of it. */
  lemma CutLosesOrder(a: Decimal, b: Decimal)
    requires Normalised(a) && Normalised(b) && CutOf(a, b)
    ensures LexLess(Body(a), Body(b)) && !LexLess(Body(b), Body(a)) && Value(b) < Value(a)
  {
    var pa, pb := Pairs(Padded(a)), Pairs(Padded(b));
    CutPairs(a, b);
    BodyAppend(a, b, 10 * b.digits[39]);
    PrefixLess(Body(a), 101 - 10 * b.digits[39]);
    LexAsymmetric(Body(a), Body(b));
    PairsInRange(a);
    PairsInRange(b);
    PaddedMagnitude(a);
    PaddedMagnitude(b);
    PrefixLess(pa, 10 * b.digits[39]);
    SameScaleOrder(pa, pb, Scale(a));
  }

  lemma SamePairs(ds: seq<nat>, es: seq<nat>)
    requires |ds| % 2 == 0 && |es| % 2 == 0 && AllDigits(ds) && AllDigits(es) && Pairs(ds) == Pairs(es)
    ensures ds == es
  {
    FlattenPairs(ds);
    FlattenPairs(es);
  }

  lemma {:induction false} PairsPrefix(ds: seq<nat>, n: nat)
    requires 2 * n <= |ds|
    ensures Pairs(ds[..2 * n]) == Pairs(ds)[..n]
  {
    if n > 0 {
      PairsPrefix(ds[2..], n - 1);
      assert ds[2..][..2 * (n - 1)] == ds[..2 * n][2..];
    }
  }

  lemma PairsCount(d: Decimal)
    ensures |Padded(d)| == 2 * |Pairs(Padded(d))|
    ensures |Padded(d)| == 42 && |d.digits| <= MAX_DIGITS ==> OddPoint(d) && Padded(d) == [0] + d.digits + [0]
    ensures |Padded(d)| <= |d.digits| + 2
  {
  }

  lemma LongestPairs(a: Decimal, b: Decimal)
    requires Normalised(a) && Normalised(b) && a.digits != [] && b.digits != []
    requires MAX_MANTISSA <= |Pairs(Padded(a))| < |Pairs(Padded(b))|
    ensures |Padded(a)| == 40 && |Padded(b)| == 42 && OddPoint(b) && |b.digits| == MAX_DIGITS
    ensures Padded(b) == [0] + b.digits + [0]
  {
    PairsCount(a);
    PairsCount(b);
  }

  lemma StartIsCut(a: Decimal, b: Decimal)
    requires Normalised(a) && Normalised(b) && a.digits != [] && a.negative && b.negative && Scale(a) == Scale(b)
    requires OddPoint(b) && |b.digits| == MAX_DIGITS && |Padded(a)| == 40
    requires Padded(a) == [0] + b.digits[..39]
    ensures CutOf(a, b)
  {
    var da := Padded(a);
    PaddedEnds(a);
    assert OddPoint(a) && a.point == b.point;
    if |a.digits| == 39 {
      assert a.digits == da[1..];
    } else {
      assert a.digits == da[1..39];
      assert da[39] == b.digits[38] == 0;
      assert a.digits == b.digits[..38];
    }
  }

  lemma SameStart(da: seq<nat>, db: seq<nat>, ds: seq<nat>)
    requires |da| == 40 && |ds| == 40 && db == [0] + ds + [0] && AllDigits(da) && AllDigits(db)
    requires Pairs(da) == Pairs(db)[..|Pairs(da)|]
    ensures da == [0] + ds[..39]
  {
    PairsPrefix(db, 20);
    SamePairs(da, db[..40]);
    assert db[..40] == [0] + ds[..39];
  }

  /** Only a number that was cut off has twenty of the twenty-one pairs of another number. */
  lemma PrefixIsCut(a: Decimal, b: Decimal)
    requires Normalised(a) && Normalised(b) && a.digits != [] && b.digits != [] && a.negative && b.negative
    requires Scale(a) == Scale(b)
    requires MAX_MANTISSA <= |Pairs(Padded(a))| < |Pairs(Padded(b))|
    requires Pairs(Padded(a)) == Pairs(Padded(b))[..|Pairs(Padded(a))|]
    ensures CutOf(a, b)
  {
    LongestPairs(a, b);
    PaddedEnds(a);
    PaddedEnds(b);
    SameStart(Padded(a), Padded(b), b.digits);
    StartIsCut(a, b);
  }

  /** Which numbers lose their order against some other number. */
  lemma WhoLosesOrder(b: Decimal)
    requires Normalised(b)
    ensures (exists a :: Normalised(a) && CutOf(a, b))
       <==> b.negative && !Fits(b) && (b.digits[37] != 0 || b.digits[38] != 0)
  {
    if b.negative && !Fits(b) && (b.digits[37] != 0 || b.digits[38] != 0) {
      var a := Decimal(true, b.point, if b.digits[38] == 0 then b.digits[..38] else b.digits[..39]);
      assert Normalised(a) && CutOf(a, b);
    }
  }

  // --------------------------------------------------------------------------------------
  // The order of all numbers
  // --------------------------------------------------------------------------------------

  lemma NegativeOrder(a: Decimal, b: Decimal)
    requires Normalised(a) && Normalised(b) && a.digits != [] && b.digits != [] && a.negative && b.negative
    requires LexLess(Body(a), Body(b)) && !CutOf(a, b)
    ensures Value(a) < Value(b)
  {
    BodyAsTail(a);
    BodyAsTail(b);
    var pa, pb, ka, kb := Pairs(Padded(a)), Pairs(Padded(b)), Scale(a), Scale(b);
    LexCons(ExponentByte(true, ka), Tail(true, pa, MAX_MANTISSA), ExponentByte(true, kb), Tail(true, pb, MAX_MANTISSA));
    if ka == kb {
      NegativeTail(pa, pb, MAX_MANTISSA);
      if !LexLess(pb, pa) {
        PrefixIsCut(a, b);
      }
    }
    ScaledOrder(pb, kb, pa, ka);
  }

  lemma PositiveOrder(a: Decimal, b: Decimal)
    requires Normalised(a) && Normalised(b) && a.digits != [] && b.digits != [] && !a.negative && !b.negative
    requires LexLess(Body(a), Body(b))
    ensures Value(a) < Value(b)
  {
    BodyAsTail(a);
    BodyAsTail(b);
    var pa, pb, ka, kb := Pairs(Padded(a)), Pairs(Padded(b)), Scale(a), Scale(b);
    LexCons(ExponentByte(false, ka), Tail(false, pa, MAX_MANTISSA), ExponentByte(false, kb), Tail(false, pb, MAX_MANTISSA));
    if ka == kb {
      PositiveTail(pa, pb, MAX_MANTISSA);
    }
    ScaledOrder(pa, ka, pb, kb);
  }

  lemma ZeroOrder(z: Decimal, d: Decimal)
    requires Normalised(z) && z.digits == []
    requires Normalised(d) && d.digits != []
    ensures LexLess(Body(z), Body(d)) <==> !d.negative
    ensures LexLess(Body(d), Body(z)) <==> d.negative
    ensures Value(z) == 0.0 && (if d.negative then Value(d) < 0.0 else Value(d) > 0.0)
  {
    BodyAsTail(d);
    var ps := Pairs(Padded(d));
    MagnitudePositive(ps, Scale(d));
    var e, t := ExponentByte(d.negative, Scale(d)), Tail(d.negative, ps, MAX_MANTISSA);
    assert Body(z) == [ZERO_CODE] + [];
    LexCons(ZERO_CODE, [], e, t);
    LexCons(e, t, ZERO_CODE, []);
  }

  /** Numbers of different signs. */
  lemma SignOrder(a: Decimal, b: Decimal)
    requires Normalised(a) && Normalised(b) && a.digits != [] && b.digits != [] && a.negative != b.negative
    requires LexLess(Body(a), Body(b))
    ensures Value(a) < Value(b)
  {
    BodyAsTail(a);
    BodyAsTail(b);
    var pa, pb := Pairs(Padded(a)), Pairs(Padded(b));
    MagnitudePositive(pa, Scale(a));
    MagnitudePositive(pb, Scale(b));
    LexCons(ExponentByte(a.negative, Scale(a)), Tail(a.negative, pa, MAX_MANTISSA),
            ExponentByte(b.negative, Scale(b)), Tail(b.negative, pb, MAX_MANTISSA));
  }

  lemma OrderForward(a: Decimal, b: Decimal)
    requires Normalised(a) && Normalised(b)
    requires LexLess(Body(a), Body(b)) && !CutOf(a, b)
    ensures Value(a) < Value(b)
  {
    if a.digits == [] && b.digits == [] {
      LexIrreflexive(Body(a));
    } else if a.digits == [] {
      ZeroOrder(a, b);
    } else if b.digits == [] {
      ZeroOrder(b, a);
    } else if a.negative != b.negative {
      SignOrder(a, b);
    } else if a.negative {
      NegativeOrder(a, b);
    } else {
      PositiveOrder(a, b);
    }
  }

  /** The order of two numbers of which neither was cut off from the other. */
  lemma OrderKept(a: Decimal, b: Decimal)
    requires Normalised(a) && Normalised(b) && !CutOf(a, b) && !CutOf(b, a)
    ensures LexLess(Body(a), Body(b)) <==> Value(a) < Value(b)
    ensures Body(a) == Body(b) <==> Value(a) == Value(b)
  {
    if LexLess(Body(a), Body(b)) {
      OrderForward(a, b);
    } else if LexLess(Body(b), Body(a)) {
      OrderForward(b, a);
    } else {
      LexTotal(Body(a), Body(b));
      EncodePreservesValue(a);
      EncodePreservesValue(b);
    }
    if Body(a) == Body(b) {
      LexIrreflexive(Body(a));
    }
  }

  /** Encoding preserves order: for any two normalised numbers, of any signs and zero included, the
      bytes after the length byte compare as the values do exactly if neither number is the other one
      cut off; and equal bytes are equal values without exception. */
  lemma EncodePreservesOrder(a: Decimal, b: Decimal)
    requires Normalised(a) && Normalised(b)
    ensures (LexLess(Body(a), Body(b)) <==> Value(a) < Value(b)) <==> !CutOf(a, b) && !CutOf(b, a)
    ensures Body(a) == Body(b) <==> Value(a) == Value(b)
    ensures Fits(a) && Fits(b) ==> !CutOf(a, b) && !CutOf(b, a)
  {
    if CutOf(a, b) {
      CutLosesOrder(a, b);
      LexIrreflexive(Body(b));
    } else if CutOf(b, a) {
      CutLosesOrder(b, a);
      LexIrreflexive(Body(a));
    } else {
      OrderKept(a, b);
    }
  }

  ghost function Nines(n: nat): (ds: seq<nat>)
    ensures |ds| == n
  {
    seq(n, i => 9)
  }

  /** A negative number with one digit before the decimal point and `n` nines. */
  ghost function NinePointNines(n: nat): Decimal {
    Decimal(true, 1, Nines(n))
  }

  lemma NinesAreCut()
    ensures var wide, cut := NinePointNines(40), NinePointNines(39);
            Normalised(wide) && Normalised(cut) && Fits(cut) && !Fits(wide) && CutOf(cut, wide)
  {
    assert Nines(39) == Nines(40)[..39];
  }

  /** One such number: forty nines with one digit before the decimal point take 23 bytes, and the
      order is lost against the same number cut after twenty pairs. */
  lemma WhyFitsMatters()
    ensures var wide, cut := NinePointNines(40), NinePointNines(39);
            && Normalised(wide) && Normalised(cut) && Fits(cut) && !Fits(wide)
            && |Encode(wide)| == 23
            && LexLess(Body(cut), Body(wide)) && Value(wide) < Value(cut)
  {
    var wide, cut := NinePointNines(40), NinePointNines(39);
    NinesAreCut();
    EncodedSize(wide);
    CutLosesOrder(cut, wide);
  }
}
