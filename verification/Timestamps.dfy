/** Timestamps as milliseconds: how they are split into the fields of an interval and put together
    again (support/dpiData.c). Floating-point rounding is not modelled: milliseconds are reals. */
module Timestamps {
  import opened Common

  const MS_DAY := 86400000.0
  const MS_HOUR := 3600000.0
  const MS_MINUTE := 60000.0
  const MS_SECOND := 1000.0
  const MS_FSECOND := 1000000
  const NS_SECOND := 1000000000

  datatype IntervalDS = IntervalDS(day: int, hour: int, minute: int, second: int, fsecond: int)

  /** Conversion to an integer in C: towards zero. */
  function Trunc(x: real): int {
    if x >= 0.0 then x.Floor else -(-x).Floor
  }

  predicate SameSign(p: IntervalDS) {
    || (p.day >= 0 && p.hour >= 0 && p.minute >= 0 && p.second >= 0 && p.fsecond >= 0)
    || (p.day <= 0 && p.hour <= 0 && p.minute <= 0 && p.second <= 0 && p.fsecond <= 0)
  }

  /** An interval as the client keeps it: every field below the next, and all of one sign. */
  predicate InRange(p: IntervalDS) {
    && SameSign(p)
    && -24 < p.hour < 24 && -60 < p.minute < 60 && -60 < p.second < 60 && -NS_SECOND < p.fsecond < NS_SECOND
  }

  function Nanos(p: IntervalDS): int {
    (((p.day * 24 + p.hour) * 60 + p.minute) * 60 + p.second) * NS_SECOND + p.fsecond
  }

  lemma WholeUnits(k: int, base: int)
    requires base > 0
    ensures k > 0 ==> k * base >= base
    ensures k < 0 ==> k * base <= -base
  {
    if k > 0 {
      assert (k - 1) * base >= 0;
    } else if k < 0 {
      assert (-k - 1) * base >= 0;
    }
  }

  lemma Digit(high: int, low: int, high2: int, low2: int, base: int)
    requires base > 0 && -base < low < base && -base < low2 < base
    requires (high >= 0 && low >= 0) || (high <= 0 && low <= 0)
    requires (high2 >= 0 && low2 >= 0) || (high2 <= 0 && low2 <= 0)
    requires high * base + low == high2 * base + low2
    ensures high == high2 && low == low2
  {
    var product, product2 := high * base, high2 * base;
    assert high >= 0 ==> product >= 0;
    assert high <= 0 ==> product <= 0;
    assert high2 >= 0 ==> product2 >= 0;
    assert high2 <= 0 ==> product2 <= 0;
    assert -base < product - product2 < base;
    assert (high - high2) * base == product - product2;
    WholeUnits(high - high2, base);
  }

  /** Nothing but the number of nanoseconds decides what an interval looks like. */
  lemma NanosDecide(p: IntervalDS, q: IntervalDS)
    requires InRange(p) && InRange(q) && Nanos(p) == Nanos(q)
    ensures p == q
  {
    Digit(((p.day * 24 + p.hour) * 60 + p.minute) * 60 + p.second, p.fsecond,
          ((q.day * 24 + q.hour) * 60 + q.minute) * 60 + q.second, q.fsecond, NS_SECOND);
    Digit((p.day * 24 + p.hour) * 60 + p.minute, p.second, (q.day * 24 + q.hour) * 60 + q.minute, q.second, 60);
    Digit(p.day * 24 + p.hour, p.minute, q.day * 24 + q.hour, q.minute, 60);
    Digit(p.day, p.hour, q.day, q.hour, 24);
  }

  lemma Scaled(part: real, unit: real, product: real)
    requires unit > 0.0 && -1.0 < part < 1.0 && product == part * unit
    ensures -unit < product < unit
    ensures part >= 0.0 ==> product >= 0.0
    ensures part <= 0.0 ==> product <= 0.0
  {
    assert (1.0 + part) * unit > 0.0;
    assert (1.0 - part) * unit > 0.0;
  }

  /** Takes as many whole units as there are; the rest keeps the sign. */
  method Take(ms: real, unit: real) returns (count: int, rest: real)
    requires unit > 0.0
    ensures count == Trunc(ms / unit)
    ensures ms == count as real * unit + rest && -unit < rest < unit
    ensures if ms >= 0.0 then count >= 0 && rest >= 0.0 else count <= 0 && rest <= 0.0
  {
    var quotient := ms / unit;
    count := Trunc(quotient);
    rest := ms - count as real * unit;
    RestBelow(ms, unit, count as real, rest);
    Signs(ms, unit);
  }

  lemma RestBelow(ms: real, unit: real, count: real, rest: real)
    requires unit > 0.0 && rest == ms - count * unit && -1.0 < ms / unit - count < 1.0
    ensures -unit < rest < unit
    ensures ms / unit >= count ==> rest >= 0.0
    ensures ms / unit <= count ==> rest <= 0.0
  {
    var part := ms / unit - count;
    assert ms / unit * unit == ms;
    assert rest == part * unit;
    Scaled(part, unit, rest);
  }

  lemma Signs(ms: real, unit: real)
    requires unit > 0.0
    ensures ms >= 0.0 <==> ms / unit >= 0.0
  {
    assert ms / unit * unit == ms;
  }

  lemma TruncSum(n: int, x: real)
    requires (n >= 0 && x >= 0.0) || (n <= 0 && x <= 0.0)
    ensures Trunc(n as real + x) == n + Trunc(x)
  {
  }

  /** Splits milliseconds into the fields of an interval, down to the nanosecond. */
  method ToInterval(milliseconds: real) returns (p: IntervalDS)
    requires -0x8000_0000 <= Trunc(milliseconds / 86400000.0) < 0x8000_0000
    ensures InRange(p) && Nanos(p) == Trunc(milliseconds * 1000000.0)
    ensures -0x8000_0000 <= p.day < 0x8000_0000
  {
    var day, hour, minute, second, ms;
    day, ms := Take(milliseconds, MS_DAY);
    hour, ms := Take(ms, MS_HOUR);
    minute, ms := Take(ms, MS_MINUTE);
    second, ms := Take(ms, MS_SECOND);
    var fsecond := Trunc(ms * 1000000.0);
    p := IntervalDS(day, hour, minute, second, fsecond);
    TruncSum((((day * 24 + hour) * 60 + minute) * 60 + second) * NS_SECOND, ms * 1000000.0);
  }

  /** Puts the milliseconds together; what is below a millisecond is dropped. */
  method FromInterval(p: IntervalDS) returns (milliseconds: real)
    requires InRange(p)
    ensures milliseconds == CDiv(Nanos(p), MS_FSECOND) as real
  {
    milliseconds := p.day as real * MS_DAY + p.hour as real * MS_HOUR + p.minute as real * MS_MINUTE
      + p.second as real * MS_SECOND + CDiv(p.fsecond, MS_FSECOND) as real;
    DropBelow(((p.day * 24 + p.hour) * 60 + p.minute) * 60 + p.second, p.fsecond);
  }

  lemma DropBelow(seconds: int, fsecond: int)
    requires (seconds >= 0 && fsecond >= 0) || (seconds <= 0 && fsecond <= 0)
    ensures CDiv(seconds * NS_SECOND + fsecond, MS_FSECOND) == seconds * 1000 + CDiv(fsecond, MS_FSECOND)
  {
  }

  lemma TruncTwice(x: real)
    ensures CDiv(Trunc(x * 1000000.0), MS_FSECOND) == Trunc(x)
  {
  }

  /** There and back, a timestamp loses its fraction of a millisecond and nothing else. */
  method ThereAndBack(milliseconds: real) returns (back: real)
    requires -0x8000_0000 <= Trunc(milliseconds / 86400000.0) < 0x8000_0000
    ensures back == Trunc(milliseconds) as real
  {
    var p := ToInterval(milliseconds);
    back := FromInterval(p);
    TruncTwice(milliseconds);
  }

  lemma Days(p: IntervalDS, milliseconds: real)
    requires InRange(p) && p.fsecond % MS_FSECOND == 0 && milliseconds == CDiv(Nanos(p), MS_FSECOND) as real
    ensures Trunc(milliseconds / MS_DAY) == p.day
  {
    var seconds := (p.hour * 60 + p.minute) * 60 + p.second;
    DropBelow(p.day * 86400 + seconds, p.fsecond);
    var rest := (seconds * 1000 + CDiv(p.fsecond, MS_FSECOND)) as real;
    assert milliseconds == p.day as real * MS_DAY + rest;
    TruncSum(p.day, rest / MS_DAY);
  }

  /** An interval of whole milliseconds comes back as it was. */
  method BackAndThere(p: IntervalDS) returns (again: IntervalDS)
    requires InRange(p) && p.fsecond % MS_FSECOND == 0 && -0x8000_0000 <= p.day < 0x8000_0000
    ensures again == p
  {
    var milliseconds := FromInterval(p);
    Days(p, milliseconds);
    again := ToInterval(milliseconds);
    Exact(p);
    NanosDecide(again, p);
  }

  lemma Exact(p: IntervalDS)
    requires InRange(p) && p.fsecond % MS_FSECOND == 0
    ensures Trunc(CDiv(Nanos(p), MS_FSECOND) as real * 1000000.0) == Nanos(p)
  {
  }
}
