/** The grpc-timeout header: choosing a unit and a count for the time left. */
module Deadline {
  import opened Options

  datatype Unit = Unit(name: char, factor: int)

  /** Milliseconds, seconds, minutes, hours. */
  const UNITS: seq<Unit> := [Unit('m', 1), Unit('S', 1000), Unit('M', 60000), Unit('H', 3600000)]

  const COUNT_LIMIT := 100_000_000
  const LIMIT_MS := 360_000_000_000_000

  datatype Timeout = Timeout(count: int, unit: Unit)

  function Ceiling(x: real): (n: int)
    ensures n as real - 1.0 < x <= n as real
  {
    -((-x).Floor)
  }

  /** The time that the header stands for, in milliseconds. */
  function Duration(t: Timeout): (ms: int)
  {
    t.count * t.unit.factor
  }

  /** The finest unit in which the time is a number below 10^8, and the least count that
      is not too short. */
  ghost predicate IsEncoding(timeoutMs: int, t: Timeout)
  {
    && t.unit in UNITS
    && timeoutMs < COUNT_LIMIT * t.unit.factor
    && (forall u :: u in UNITS && u.factor < t.unit.factor ==> timeoutMs >= COUNT_LIMIT * u.factor)
    && timeoutMs <= Duration(t) < timeoutMs + t.unit.factor
  }

  lemma CeilingDivides(timeoutMs: int, unit: Unit)
    requires unit in UNITS
    ensures var count := Ceiling(timeoutMs as real / unit.factor as real);
      timeoutMs <= count * unit.factor < timeoutMs + unit.factor
  {}

  /** The loop of DeadlineFilter.sendMetadata. With 10^8 hours or more left no unit fits,
      and the source's promise is never settled. */
  method EncodeTimeout(timeoutMs: int) returns (r: Option<Timeout>)
    ensures r.Some? <==> timeoutMs < LIMIT_MS
    ensures r.Some? ==> IsEncoding(timeoutMs, r.value)
  {
    for i := 0 to |UNITS|
      invariant forall j :: 0 <= j < i ==> timeoutMs >= COUNT_LIMIT * UNITS[j].factor
    {
      var unit := UNITS[i];
      var amount := timeoutMs as real / unit.factor as real;
      assert amount * unit.factor as real == timeoutMs as real;
      if amount < 100_000_000.0 {
        CeilingDivides(timeoutMs, unit);
        return Some(Timeout(Ceiling(amount), unit));
      }
    }
    assert timeoutMs >= COUNT_LIMIT * UNITS[3].factor;
    return None;
  }

  /** The header is fixed by the time left. */
  lemma EncodingUnique(timeoutMs: int, a: Timeout, b: Timeout)
    requires IsEncoding(timeoutMs, a) && IsEncoding(timeoutMs, b)
    ensures a == b
  {}

  /** Precision: the error is below one unit and at most one part in 10^5; the count stays
      within 10^8. */
  lemma Precision(timeoutMs: int, t: Timeout)
    requires 0 <= timeoutMs && IsEncoding(timeoutMs, t)
    ensures (Duration(t) - timeoutMs) * 100_000 <= timeoutMs
    ensures 0 <= t.count <= COUNT_LIMIT
  {}

  /** The header has a ninth digit exactly when less than one unit is missing to 10^8 of
      the chosen unit. */
  lemma NineDigits(timeoutMs: int, t: Timeout)
    requires 0 <= timeoutMs && IsEncoding(timeoutMs, t)
    ensures t.count == COUNT_LIMIT <==> timeoutMs > (COUNT_LIMIT - 1) * t.unit.factor
  {
    Precision(timeoutMs, t);
    assert t.unit == UNITS[0] || t.unit == UNITS[1] || t.unit == UNITS[2] || t.unit == UNITS[3];
  }

  /** In milliseconds that cannot happen; in every coarser unit it does. */
  lemma NineDigitsReached()
    ensures IsEncoding(99_999_999_001, Timeout(COUNT_LIMIT, Unit('S', 1000)))
    ensures IsEncoding(5_999_999_999_999, Timeout(COUNT_LIMIT, Unit('M', 60000)))
    ensures IsEncoding(359_999_999_999_999, Timeout(COUNT_LIMIT, Unit('H', 3600000)))
    ensures forall ms, count :: IsEncoding(ms, Timeout(count, Unit('m', 1))) ==> count < COUNT_LIMIT
  {
    assert UNITS[1] == Unit('S', 1000) && UNITS[2] == Unit('M', 60000) && UNITS[3] == Unit('H', 3600000);
  }

  /** The longer the time left, the longer the encoded time, across unit boundaries too. */
  lemma Monotone(a: int, b: int, ta: Timeout, tb: Timeout)
    requires a <= b && IsEncoding(a, ta) && IsEncoding(b, tb)
    ensures Duration(ta) <= Duration(tb)
  {
    assert ta.unit in UNITS && tb.unit in UNITS;
    RoundsUpTo(a, ta, COUNT_LIMIT);
    if ta.unit.factor == tb.unit.factor {
      RoundsUpTo(a, ta, tb.count);
    }
  }

  /** Rounding up stops at the first count that is long enough. */
  lemma RoundsUpTo(timeoutMs: int, t: Timeout, count: int)
    requires t.unit in UNITS && Duration(t) < timeoutMs + t.unit.factor
    requires timeoutMs <= count * t.unit.factor
    ensures Duration(t) <= count * t.unit.factor
  {
    assert t.unit == UNITS[0] || t.unit == UNITS[1] || t.unit == UNITS[2] || t.unit == UNITS[3];
  }

  /** A deadline that has passed is sent as a negative number of milliseconds. */
  lemma PastDeadline(timeoutMs: int, t: Timeout)
    requires timeoutMs < 0 && IsEncoding(timeoutMs, t)
    ensures t == Timeout(timeoutMs, UNITS[0])
  {}
}
