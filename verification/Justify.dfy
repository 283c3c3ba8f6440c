/**
 `justify_days`, `justify_hours` and `justify_interval`: moving an interval's components
 around without changing what it denotes. For `justify_interval` the three components end up
 in range and of one sign, which pins them down: it is a canonical form of the total.
 */
module Justify {
  import opened Numeric

  const USECS_PER_DAY: int := 86_400_000_000
  const NANOS_PER_DAY: int := 86_400_000_000_000
  const DAYS_PER_MONTH: int := 30
  const NANOS_PER_MONTH: int := 2_592_000_000_000_000

  /** `as i32`: the low 32 bits, read as signed. */
  function WrapI32(x: int): (r: int)
    ensures IsI32(r) && (IsI32(x) ==> r == x)
    ensures (x - r) % 0x1_0000_0000 == 0
  {
    (x + I32_MAX + 1) % (2 * (I32_MAX + 1)) - I32_MAX - 1
  }

  /** Division and remainder truncating towards zero, as the source's operators do. */
  function Quot(x: int, d: int): int
    requires 0 < d
  {
    if x < 0 then -(-x / d) else x / d
  }

  function Rem(x: int, d: int): int
    requires 0 < d
  {
    if x < 0 then -(-x % d) else x % d
  }

  /** The remainder keeps the sign of the dividend. */
  lemma QuotRem(x: int, d: int)
    requires 0 < d
    ensures x == Quot(x, d) * d + Rem(x, d)
    ensures -d < Rem(x, d) < d
    ensures (0 <= x ==> 0 <= Rem(x, d)) && (x <= 0 ==> Rem(x, d) <= 0)
  {
  }

  datatype Interval = Interval(months: int, days: int, nanos: int) {
    /** The components fit the columns they are stored in. */
    predicate Stored() {
      IsI32(months) && IsI32(days) && IsI64(nanos)
    }

    /** What the interval denotes, with thirty days to a month and a day of twenty-four hours. */
    function Total(): int {
      months * NANOS_PER_MONTH + days * NANOS_PER_DAY + nanos
    }

    predicate InRange() {
      -DAYS_PER_MONTH < days < DAYS_PER_MONTH && -NANOS_PER_DAY < nanos < NANOS_PER_DAY
    }

    /** No two components of opposite sign. */
    predicate OneSign() {
      || (0 <= months && 0 <= days && 0 <= nanos)
      || (months <= 0 && days <= 0 && nanos <= 0)
    }

    predicate Canonical() {
      InRange() && OneSign()
    }
  }

  datatype JustifyUnit = Days | Hours | DaysAndHours

  /** Borrow across a component whose sign disagrees with the one above it. */
  method AgreeInSign(months: int, days: int, time: int) returns (m: int, d: int, t: int)
    requires -DAYS_PER_MONTH < days < DAYS_PER_MONTH && -USECS_PER_DAY < time < USECS_PER_DAY
    ensures (m * DAYS_PER_MONTH + d) * USECS_PER_DAY + t == (months * DAYS_PER_MONTH + days) * USECS_PER_DAY + time
    ensures -DAYS_PER_MONTH < d < DAYS_PER_MONTH && -USECS_PER_DAY < t < USECS_PER_DAY
    ensures (0 <= m && 0 <= d && 0 <= t) || (m <= 0 && d <= 0 && t <= 0)
    ensures t == 0 <==> time == 0
  {
    m, d, t := months, days, time;
    if m > 0 && (d < 0 || (d == 0 && t < 0)) {
      d := d + DAYS_PER_MONTH;
      m := m - 1;
    } else if m < 0 && (d > 0 || (d == 0 && t > 0)) {
      d := d - DAYS_PER_MONTH;
      m := m + 1;
    }
    if d > 0 && t < 0 {
      t := t + USECS_PER_DAY;
      d := d - 1;
    } else if d < 0 && t > 0 {
      t := t - USECS_PER_DAY;
      d := d + 1;
    }
  }

  // ----- the canonical form

  /** The total divided out, truncating, into months, days and time. */
  function CanonicalOf(total: int): Interval {
    Interval(Quot(total, NANOS_PER_MONTH),
             Quot(Rem(total, NANOS_PER_MONTH), NANOS_PER_DAY),
             Rem(Rem(total, NANOS_PER_MONTH), NANOS_PER_DAY))
  }

  lemma CanonicalOfTotal(total: int)
    ensures CanonicalOf(total).Total() == total && CanonicalOf(total).Canonical()
  {
    QuotRem(total, NANOS_PER_MONTH);
    QuotRem(Rem(total, NANOS_PER_MONTH), NANOS_PER_DAY);
  }

  /** Components in range and of one sign are determined by what they add up to. */
  lemma CanonicalUnique(a: Interval, b: Interval)
    requires a.Canonical() && b.Canonical() && a.Total() == b.Total()
    ensures a == b
  {
    SameMonths(a, b);
  }

  lemma SameMonths(a: Interval, b: Interval)
    requires a.Canonical() && b.Canonical() && a.Total() == b.Total()
    ensures a.months == b.months
  {
  }

  /**
   Two intervals have the same canonical form exactly when they denote the same total, and a
   canonical form is its own.
   */
  lemma CanonicalForm(a: Interval, b: Interval)
    ensures CanonicalOf(a.Total()) == CanonicalOf(b.Total()) <==> a.Total() == b.Total()
    ensures a.Canonical() <==> CanonicalOf(a.Total()) == a
  {
    CanonicalOfTotal(a.Total());
    CanonicalOfTotal(b.Total());
    if a.Canonical() {
      CanonicalUnique(a, CanonicalOf(a.Total()));
    }
  }

  // ----- the three functions

  /** The part of the interval below a microsecond, which no function moves. */
  function BelowMicrosecond(value: Interval): int {
    Rem(value.nanos, 1_000)
  }

  /**
   The sub-microsecond part is left hanging with the wrong sign: nothing else is left of the
   time of day, and the rest of the interval points the other way.
   */
  predicate Strays(value: Interval) {
    var below := BelowMicrosecond(value);
    var whole := value.Total() - below;
    && Rem(Quot(value.nanos, 1_000), USECS_PER_DAY) == 0
    && ((below < 0 && 0 < whole) || (0 < below && whole < 0))
  }

  /** What is left of a component: less than one of the next unit up, and of the same sign. */
  predicate WithinUnit(left: int, given: int, unit: int) {
    -unit < left < unit && (0 <= given ==> 0 <= left) && (given <= 0 ==> left <= 0)
  }

  /** The interval before its components are narrowed to the columns they are stored in. */
  method JustifyWide(value: Interval, unit: JustifyUnit) returns (r: Interval)
    ensures r.Total() == value.Total()
    ensures unit == Days ==> r.nanos == value.nanos && WithinUnit(r.days, value.days, DAYS_PER_MONTH)
    ensures unit == Hours ==> r.months == value.months && WithinUnit(r.nanos, value.nanos, NANOS_PER_DAY)
    ensures unit == DaysAndHours ==> r.InRange()
    ensures unit == DaysAndHours ==> (r.OneSign() <==> !Strays(value))
  {
    var months, days := value.months, value.days;
    var time := Quot(value.nanos, 1_000);
    var remainder := Rem(value.nanos, 1_000);
    QuotRem(value.nanos, 1_000);
    if unit == Hours || unit == DaysAndHours {
      QuotRem(time, USECS_PER_DAY);
      days := days + Quot(time, USECS_PER_DAY);
      time := Rem(time, USECS_PER_DAY);
    }
    if unit == Days || unit == DaysAndHours {
      QuotRem(days, DAYS_PER_MONTH);
      months := months + Quot(days, DAYS_PER_MONTH);
      days := Rem(days, DAYS_PER_MONTH);
    }
    if unit == DaysAndHours {
      months, days, time := AgreeInSign(months, days, time);
    }
    r := Interval(months, days, time * 1_000 + remainder);
  }

  /**
   The stored result. `justify_interval` answers the canonical form of the total exactly when
   its month count fits the column and the sub-microsecond part does not stray; a count that
   does not fit is wrapped. The other two keep the total exactly when the component they move
   into fits, and always leave the other in range and of its own sign.
   */
  method Justify(value: Interval, unit: JustifyUnit) returns (r: Interval)
    requires value.Stored()
    ensures r.Stored()
    ensures unit == DaysAndHours ==>
              (r == CanonicalOf(value.Total())
               <==> IsI32(Quot(value.Total(), NANOS_PER_MONTH)) && !Strays(value))
    ensures unit == Days ==>
              && r.nanos == value.nanos && WithinUnit(r.days, value.days, DAYS_PER_MONTH)
              && (r.Total() == value.Total() <==> IsI32(value.months + Quot(value.days, DAYS_PER_MONTH)))
    ensures unit == Hours ==>
              && r.months == value.months && WithinUnit(r.nanos, value.nanos, NANOS_PER_DAY)
              && (r.Total() == value.Total() <==> IsI32(value.days + Quot(value.nanos, NANOS_PER_DAY)))
  {
    var wide := JustifyWide(value, unit);
    CanonicalOfTotal(value.Total());
    if wide.Canonical() {
      CanonicalUnique(wide, CanonicalOf(value.Total()));
    }
    r := Interval(WrapI32(wide.months), WrapI32(wide.days), wide.nanos);
  }

  /** Idempotence: a canonical interval meets the condition and is the answer to itself. */
  lemma CanonicalIsFixed(r: Interval)
    requires r.Stored() && r.Canonical()
    ensures IsI32(Quot(r.Total(), NANOS_PER_MONTH)) && !Strays(r) && CanonicalOf(r.Total()) == r
  {
    CanonicalForm(r, r);
    QuotRem(r.nanos, 1_000);
  }

  /** Stored intervals on which each half of that condition fails. */
  lemma NotAlwaysCanonical()
    ensures Interval(1, 0, -1).Stored() && Strays(Interval(1, 0, -1))
    ensures var wide := Interval(I32_MAX, 30, 0);
            wide.Stored() && !IsI32(Quot(wide.Total(), NANOS_PER_MONTH))
  {
  }
}
