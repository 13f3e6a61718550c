/**
  The part of Go's time package that the day-keyed store relies on.

  An instant is a whole number of nanoseconds counted from Go's zero time
  (January 1, year 1, 00:00:00 UTC); a duration is a whole number of
  nanoseconds, as Go's time.Duration is.  Truncate rounds an instant down to a
  multiple of a duration counted from the zero time, whatever the instant's
  location, and leaves it unchanged when the duration is not positive.
 */
module Time {

  type Instant = int
  type Duration = int

  const Nanosecond: Duration := 1
  const Second: Duration := 1_000_000_000 * Nanosecond
  const Minute: Duration := 60 * Second
  const Hour: Duration := 60 * Minute

  /** Go's Time.Truncate: the greatest multiple of d (since the zero time) not after t. */
  function Truncate(t: Instant, d: Duration): (r: Instant)
    ensures d <= 0 ==> r == t
    ensures d > 0 ==> r <= t < r + d && r % d == 0
  {
    if d <= 0 then t
    else
      assert t - t % d == (t / d) * d;
      MultipleMod(t / d, d);
      t - t % d
  }

  /** Truncate is the round-down: every multiple of d whose period holds t is the result. */
  lemma TruncateUnique(t: Instant, d: Duration, q: int)
    requires d > 0
    requires q * d <= t < q * d + d
    ensures Truncate(t, d) == q * d
  {
    var p := t / d;
    assert t == p * d + t % d;
    if p < q {
      assert p + 1 <= q;
      MulMonotone(p + 1, q, d);
      assert false;
    } else if p > q {
      assert q + 1 <= p;
      MulMonotone(q + 1, p, d);
      assert false;
    }
  }

  /** The period number of t: how many whole periods d lie between the zero time and t. */
  lemma TruncateIsPeriodStart(t: Instant, d: Duration)
    requires d > 0
    ensures Truncate(t, d) == (t / d) * d
  {
  }

  /** Truncation is idempotent. */
  lemma TruncateIdempotent(t: Instant, d: Duration)
    ensures Truncate(Truncate(t, d), d) == Truncate(t, d)
  {
  }

  /** Moving an instant by whole periods moves its truncation by the same amount. */
  lemma TruncateShift(t: Instant, d: Duration, n: int)
    ensures Truncate(t + n * d, d) == Truncate(t, d) + n * d
  {
    if d > 0 {
      var q := t / d;
      assert q * d <= t < q * d + d;
      assert (q + n) * d == q * d + n * d;
      TruncateUnique(t + n * d, d, q + n);
      TruncateIsPeriodStart(t, d);
    }
  }

  /** Helper: a multiple of d leaves no remainder. */
  lemma MultipleMod(q: int, d: int)
    requires d > 0
    ensures (q * d) % d == 0
  {
    var k, m := (q * d) / d, (q * d) % d;
    assert q * d == k * d + m && 0 <= m < d;
    assert m == (q - k) * d;
    if q - k >= 1 {
      MulMonotone(1, q - k, d);
    } else if q - k <= -1 {
      MulMonotone(q - k, -1, d);
    }
  }

  /** Helper: multiplication by a positive factor keeps the order. */
  lemma MulMonotone(a: int, b: int, d: int)
    requires a <= b && d > 0
    ensures a * d <= b * d
  {
  }
}
