/** Instants of time as integers: microseconds since midnight of day 0.
    A calendar date is a day number; a wall-clock time is a microsecond
    offset into the day. */
module Instants {

  const MICROS_PER_SECOND: int := 1_000_000
  const MICROS_PER_MINUTE: int := 60_000_000
  const MICROS_PER_DAY: int := 86_400_000_000

  /** A `datetime.time` value: an offset into the day. */
  type TimeOfDay = x: int | 0 <= x < MICROS_PER_DAY

  /** `timedelta(minutes=m)` */
  function Minutes(m: int): int {
    m * MICROS_PER_MINUTE
  }

  /** `t.date()`: Euclidean division floors for a positive divisor. */
  function DayOf(t: int): int {
    t / MICROS_PER_DAY
  }

  /** `t.time()` */
  function TimeOf(t: int): TimeOfDay {
    t % MICROS_PER_DAY
  }

  predicate IsWholeMinute(t: int) {
    t % MICROS_PER_MINUTE == 0
  }

  /** `datetime.combine(d, tm)`, the `_combine` helper of the slot service. */
  function Combine(d: int, tm: TimeOfDay): int {
    d * MICROS_PER_DAY + tm
  }

  /** The combined instant lies on date `d` at time `tm`: splitting it gives them back. */
  lemma CombineParts(d: int, tm: TimeOfDay)
    ensures DayOf(Combine(d, tm)) == d && TimeOf(Combine(d, tm)) == tm
    ensures d * MICROS_PER_DAY <= Combine(d, tm) < (d + 1) * MICROS_PER_DAY
  {
    DivModUnique(d * MICROS_PER_DAY + tm, d, tm);
  }

  /** Splitting an instant into its date and time and combining them again is the identity. */
  lemma CombineSplit(t: int)
    ensures Combine(DayOf(t), TimeOf(t)) == t
  {
  }

  /** Quotient and remainder by the day length are unique. */
  lemma DivModUnique(t: int, q: int, r: int)
    requires 0 <= r < MICROS_PER_DAY && t == q * MICROS_PER_DAY + r
    ensures t / MICROS_PER_DAY == q && t % MICROS_PER_DAY == r
  {
  }

  /** The cursor alignment of the slot search: an instant with a non-zero second or
      microsecond component is truncated to its minute and moved one minute on.
      The result is the first whole minute at or after `t`. */
  function AlignUp(t: int): (r: int)
    ensures IsWholeMinute(r) && t <= r < t + MICROS_PER_MINUTE
    ensures IsWholeMinute(t) ==> r == t
    ensures forall u :: t <= u < r ==> !IsWholeMinute(u)
  {
    if t % MICROS_PER_MINUTE != 0 then
      var r := t - t % MICROS_PER_MINUTE + MICROS_PER_MINUTE;
      assert r == (t / MICROS_PER_MINUTE + 1) * MICROS_PER_MINUTE;
      AlignedBetween(t);
      r
    else
      t
  }

  /** No whole minute lies strictly between a whole minute and the next one. */
  lemma AlignedBetween(t: int)
    ensures forall u :: t <= u < t - t % MICROS_PER_MINUTE + MICROS_PER_MINUTE && t % MICROS_PER_MINUTE != 0 ==> !IsWholeMinute(u)
  {
    var base := t - t % MICROS_PER_MINUTE;
    forall u | t <= u < base + MICROS_PER_MINUTE && t % MICROS_PER_MINUTE != 0
      ensures !IsWholeMinute(u)
    {
      assert base == (t / MICROS_PER_MINUTE) * MICROS_PER_MINUTE;
      assert base < u < base + MICROS_PER_MINUTE;
      MinuteGap(t / MICROS_PER_MINUTE, u);
    }
  }

  lemma MinuteGap(k: int, u: int)
    requires k * MICROS_PER_MINUTE < u < (k + 1) * MICROS_PER_MINUTE
    ensures u % MICROS_PER_MINUTE != 0
  {
  }
}
