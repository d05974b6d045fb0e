/** `DateTimeExtensions.TruncateToSeconds` and `TruncateTo`: rounding a timestamp down to a whole
    number of intervals, done on .NET tick counts (100 ns units since 0001-01-01). */
module Ticks {
  import opened Wrappers

  /** `DateTime.MaxValue.Ticks`; a `DateTime` holds a tick count in `0..MaxTicks`. */
  const MaxTicks: int := 3155378975999999999
  const TicksPerSecond: int := 10_000_000

  type DateTicks = t: int | 0 <= t <= MaxTicks

  /** `TimeSpan.Ticks` is a signed 64-bit integer. */
  type SpanTicks = i: int | -0x8000_0000_0000_0000 <= i < 0x8000_0000_0000_0000

  /** `%` by a zero `TimeSpan` throws `DivideByZeroException`. */
  datatype Error = DivideByZero

  function Abs(i: int): nat {
    if i < 0 then -i else i
  }

  lemma MulAtLeast(x: int, a: int)
    requires x >= 1 && a > 0
    ensures x * a >= a
  {
  }

  lemma Distrib(x: int, y: int, a: int)
    ensures x * a - y * a == (x - y) * a
  {
  }

  /** Division facts for a dividend written as `q * a + d`: the quotient and remainder are `q`, `d`. */
  lemma DivModUnique(t: int, a: int, q: int, d: int)
    requires a > 0 && 0 <= d < a && t == q * a + d
    ensures t / a == q && t % a == d
  {
    var q', d' := t / a, t % a;
    assert t == q' * a + d';
    Distrib(q, q', a);
    Distrib(q', q, a);
    if q' < q {
      MulAtLeast(q - q', a);
    } else if q' > q {
      MulAtLeast(q' - q, a);
    }
  }

  lemma MultipleOrder(k: int, q: int, a: int)
    requires a > 0
    ensures k * a < (q + 1) * a ==> k * a <= q * a
  {
    Distrib(k, q, a);
    if k > q {
      MulAtLeast(k - q, a);
    } else {
      MulAtLeast(1, a);
      Distrib(q, k, a);
      if k < q { MulAtLeast(q - k, a); }
    }
  }

  lemma RoundDown(t: int, a: int)
    requires t >= 0 && a > 0
    ensures 0 <= t - t % a <= t < t - t % a + a && (t - t % a) % a == 0
  {
    assert t - t % a == (t / a) * a + 0;
    DivModUnique(t - t % a, a, t / a, 0);
  }

  /** C#'s `t % i` for a non-negative `t` takes the sign of `t`, so it is the remainder of `t` by
      `|i|` whatever the sign of `i`; `t - t % i` stays in `0..t` and `new DateTime` never throws. */
  function TruncateTo(t: DateTicks, interval: SpanTicks): (r: Result<DateTicks, Error>)
    ensures r.Err? <==> interval == 0
    ensures r.Err? ==> r.error == DivideByZero
    ensures r.Ok? ==> r.value <= t < r.value + Abs(interval) && r.value % Abs(interval) == 0
  {
    if interval == 0 then Err(DivideByZero)
    else
      var a := Abs(interval);
      RoundDown(t, a);
      Ok(t - t % a)
  }

  /** `TruncateToSeconds` uses the literal `10_000_000` and never throws. */
  function TruncateToSeconds(t: DateTicks): (r: DateTicks)
    ensures r <= t < r + TicksPerSecond && r % TicksPerSecond == 0
  {
    RoundDown(t, TicksPerSecond);
    t - t % TicksPerSecond
  }

  lemma TruncateToSecondsIsTruncateTo(t: DateTicks)
    ensures TruncateTo(t, TicksPerSecond) == Ok(TruncateToSeconds(t))
  {
  }

  /** The result is the greatest multiple of the interval not after `t`. */
  lemma TruncateToGreatest(t: DateTicks, interval: SpanTicks, m: int)
    requires interval != 0 && m % Abs(interval) == 0 && m <= t
    ensures m <= TruncateTo(t, interval).value
  {
    var a := Abs(interval);
    var r := TruncateTo(t, interval).value;
    DivModUnique(m, a, m / a, 0);
    DivModUnique(r, a, r / a, 0);
    MultipleOrder(m / a, r / a, a);
  }

  /** A timestamp already on an interval boundary is left as it is. */
  lemma TruncateToOnBoundary(t: DateTicks, interval: SpanTicks)
    requires interval != 0 && t % Abs(interval) == 0
    ensures TruncateTo(t, interval) == Ok(t)
  {
    TruncateToGreatest(t, interval, t);
  }

  lemma TruncateToIdempotent(t: DateTicks, interval: SpanTicks)
    requires interval != 0
    ensures TruncateTo(TruncateTo(t, interval).value, interval) == TruncateTo(t, interval)
  {
    TruncateToOnBoundary(TruncateTo(t, interval).value, interval);
  }

  lemma TruncateToMonotone(t1: DateTicks, t2: DateTicks, interval: SpanTicks)
    requires interval != 0 && t1 <= t2
    ensures TruncateTo(t1, interval).value <= TruncateTo(t2, interval).value
  {
    TruncateToGreatest(t2, interval, TruncateTo(t1, interval).value);
  }

  /** The interval's sign does not matter: `t % -i == t % i` in C# for a non-negative `t`. */
  lemma TruncateToNegatedInterval(t: DateTicks, interval: SpanTicks)
    requires interval != 0 && interval != -0x8000_0000_0000_0000
    ensures TruncateTo(t, -interval) == TruncateTo(t, interval)
  {
  }

  /** The tick counts of the unit tests' timestamps, 2012-04-01T12:23:33.1 to 12:23:35.1 (UTC). */
  const At34_992233: int := 634688798149922330
  const At34_900000: int := 634688798149000000
  const At34_112233: int := 634688798141122330
  const At34_100000: int := 634688798141000000
  const At34_000000: int := 634688798140000000
  const At35_100000: int := 634688798151000000
  const At35_000000: int := 634688798150000000
  const At33_100000: int := 634688798131000000
  const At33_000000: int := 634688798130000000

  lemma TruncateToSecondsExamples()
    ensures TruncateToSeconds(At34_992233) == At34_000000
    ensures TruncateToSeconds(At34_112233) == At34_000000
    ensures TruncateToSeconds(At34_000000) == At34_000000
    ensures TruncateToSeconds(At35_100000) == At35_000000
    ensures TruncateToSeconds(At33_100000) == At33_000000
  {
  }

  /** `TimeSpan.FromSeconds(0.1)` is one million ticks. */
  lemma TruncateToTenthExamples()
    ensures TruncateTo(At34_992233, 1_000_000) == Ok(At34_900000)
    ensures TruncateTo(At34_112233, 1_000_000) == Ok(At34_100000)
    ensures TruncateTo(At34_000000, 1_000_000) == Ok(At34_000000)
  {
  }
}
