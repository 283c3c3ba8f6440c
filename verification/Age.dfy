/**
 `age`: the difference of two instants field by field, with every negative field borrowing
 from the one above it. All the radices are constants except one: a day borrows the length of
 the month the smaller instant sits in.
 */
module Age {
  import opened Numeric

  const USECS_PER_SEC: int := 1_000_000

  /** The last year of the calendar library; the December of it has no next month to measure to. */
  const MAX_YEAR: int := 262_142
  const MIN_YEAR: int := -262_143

  // ----- the calendar

  predicate IsLeap(year: int) {
    year % 4 == 0 && (year % 100 != 0 || year % 400 == 0)
  }

  function MonthLength(year: int, month: int): (days: int)
    ensures 28 <= days <= 31
  {
    if month == 2 then (if IsLeap(year) then 29 else 28)
    else if month == 4 || month == 6 || month == 9 || month == 11 then 30
    else 31
  }

  /** The civil fields of an instant. */
  datatype Civil = Civil(year: int, month: int, day: int, hour: int, min: int, sec: int, usec: int) {
    predicate Valid() {
      && MIN_YEAR <= year <= MAX_YEAR
      && 1 <= month <= 12
      && 1 <= day <= MonthLength(year, month)
      && 0 <= hour < 24 && 0 <= min < 60 && 0 <= sec < 60 && 0 <= usec < USECS_PER_SEC
    }

    function TimeOfDay(): int {
      ((hour * 60 + min) * 60 + sec) * USECS_PER_SEC + usec
    }

    /** Microseconds from the start of year 1, the order instants are compared in. */
    function Micros(): int {
      DayNumber(year, month, day) * (24 * 60 * 60 * USECS_PER_SEC) + TimeOfDay()
    }
  }

  /** Days before a year of the proleptic Gregorian calendar, counted from year 1. */
  function DaysBeforeYear(year: int): int {
    365 * (year - 1) + (year - 1) / 4 - (year - 1) / 100 + (year - 1) / 400
  }

  function DaysBeforeMonth(year: int, month: int): int
    requires 1 <= month <= 13
  {
    if month == 1 then 0 else DaysBeforeMonth(year, month - 1) + MonthLength(year, month - 1)
  }

  function DayNumber(year: int, month: int, day: int): int {
    if 1 <= month <= 13 then DaysBeforeYear(year) + DaysBeforeMonth(year, month) + day - 1 else 0
  }

  /** The months of a year are what the next year starts after. */
  lemma YearLength(year: int)
    ensures DaysBeforeMonth(year, 13) == if IsLeap(year) then 366 else 365
    ensures DaysBeforeYear(year + 1) == DaysBeforeYear(year) + DaysBeforeMonth(year, 13)
  {
    MonthsBefore(year, 13);
    LeapDays(year);
  }

  /** The days before each month, in closed form: thirty a month, the thirty-firsts, and February. */
  function DaysBefore(year: int, month: int): int {
    30 * (month - 1) + month / 2 + (if 8 < month && month % 2 == 1 then 1 else 0)
    - (if month <= 2 then 0 else if IsLeap(year) then 1 else 2)
  }

  lemma {:induction false} MonthsBefore(year: int, month: int)
    requires 1 <= month <= 13
    ensures DaysBeforeMonth(year, month) == DaysBefore(year, month)
  {
    if month == 1 {
    } else {
      MonthsBefore(year, month - 1);
    }
  }

  lemma LeapDays(year: int)
    ensures DaysBeforeYear(year + 1) == DaysBeforeYear(year) + if IsLeap(year) then 366 else 365
  {
    MultipleStep(year, 4);
    MultipleStep(year, 100);
    MultipleStep(year, 400);
    CenturiesAreMultiples(year);
  }

  lemma MultipleStep(year: int, n: int)
    requires n > 1
    ensures year / n == (year - 1) / n + if year % n == 0 then 1 else 0
  {
    NextQuotient(year - 1, n);
  }

  lemma CenturiesAreMultiples(year: int)
    ensures year % 100 == 0 ==> year % 4 == 0
    ensures year % 400 == 0 ==> year % 100 == 0
  {
    if year % 100 == 0 {
      DivModUnique(year, 4, 25 * (year / 100), 0);
    }
    if year % 400 == 0 {
      DivModUnique(year, 100, 4 * (year / 400), 0);
    }
  }

  /**
   `days_in_month` measures from the first of the month to the first of the next, and that is
   the month's length everywhere but in the last December, where it answers thirty.
   */
  function DaysInMonth(year: int, month: int): int
    requires 1 <= month <= 12
  {
    if month == 12 then
      if year == MAX_YEAR then 30 else DayNumber(year + 1, 1, 1) - DayNumber(year, 12, 1)
    else
      DayNumber(year, month + 1, 1) - DayNumber(year, month, 1)
  }

  lemma DaysInMonthIsLength(year: int, month: int)
    requires 1 <= month <= 12
    ensures DaysInMonth(year, month) == if year == MAX_YEAR && month == 12 then 30 else MonthLength(year, month)
  {
    YearLength(year);
  }

  // ----- comparing instants is comparing fields

  predicate TimeBefore(a: Civil, b: Civil) {
    || a.hour < b.hour
    || (a.hour == b.hour && (a.min < b.min
        || (a.min == b.min && (a.sec < b.sec || (a.sec == b.sec && a.usec < b.usec)))))
  }

  predicate Before(a: Civil, b: Civil) {
    || a.year < b.year
    || (a.year == b.year && (a.month < b.month
        || (a.month == b.month && (a.day < b.day || (a.day == b.day && TimeBefore(a, b))))))
  }

  lemma {:induction false} MonthsIncrease(year: int, m: int, n: int)
    requires 1 <= m < n <= 13
    ensures DaysBeforeMonth(year, m) + MonthLength(year, m) <= DaysBeforeMonth(year, n)
    decreases n - m
  {
    if m + 1 < n {
      MonthsIncrease(year, m, n - 1);
    }
  }

  lemma {:induction false} YearsIncrease(y: int, z: int)
    requires y <= z
    ensures DaysBeforeYear(y) + 365 * (z - y) <= DaysBeforeYear(z)
    decreases z - y
  {
    if y < z {
      YearsIncrease(y, z - 1);
      LeapDays(z - 1);
    }
  }

  lemma {:induction false} DayWithinYear(year: int, month: int, day: int)
    requires 1 <= month <= 12 && 1 <= day <= MonthLength(year, month)
    ensures DaysBeforeYear(year) <= DayNumber(year, month, day) < DaysBeforeYear(year + 1)
  {
    YearLength(year);
    MonthsIncrease(year, month, 13);
    if 1 < month {
      MonthsIncrease(year, 1, month);
    }
  }

  predicate DateBefore(a: Civil, b: Civil) {
    a.year < b.year || (a.year == b.year && (a.month < b.month || (a.month == b.month && a.day < b.day)))
  }

  lemma {:induction false} DatesOrdered(a: Civil, b: Civil)
    requires a.Valid() && b.Valid() && DateBefore(a, b)
    ensures DayNumber(a.year, a.month, a.day) < DayNumber(b.year, b.month, b.day)
  {
    if a.year < b.year {
      DayWithinYear(a.year, a.month, a.day);
      DayWithinYear(b.year, b.month, b.day);
      YearsIncrease(a.year + 1, b.year);
    } else if a.month < b.month {
      MonthsIncrease(a.year, a.month, b.month);
    }
  }

  lemma TimeWithinDay(c: Civil)
    requires c.Valid()
    ensures 0 <= c.TimeOfDay() < 24 * 60 * 60 * USECS_PER_SEC
  {
  }

  lemma TimesOrdered(a: Civil, b: Civil)
    requires a.Valid() && b.Valid() && TimeBefore(a, b)
    ensures a.TimeOfDay() < b.TimeOfDay()
  {
  }

  lemma DayThenTime(d: int, t: int, e: int, u: int)
    requires 0 <= t < 24 * 60 * 60 * USECS_PER_SEC && 0 <= u < 24 * 60 * 60 * USECS_PER_SEC
    ensures d * (24 * 60 * 60 * USECS_PER_SEC) + t < e * (24 * 60 * 60 * USECS_PER_SEC) + u
            <==> d < e || (d == e && t < u)
  {
  }

  /** The order of the instants is the lexicographic order of their fields. */
  lemma {:induction false} MicrosOrdered(a: Civil, b: Civil)
    requires a.Valid() && b.Valid()
    ensures a.Micros() < b.Micros() <==> Before(a, b)
    ensures a.Micros() == b.Micros() <==> a == b
  {
    TimeWithinDay(a);
    TimeWithinDay(b);
    var d, e := DayNumber(a.year, a.month, a.day), DayNumber(b.year, b.month, b.day);
    DayThenTime(d, a.TimeOfDay(), e, b.TimeOfDay());
    DayThenTime(e, b.TimeOfDay(), d, a.TimeOfDay());
    if DateBefore(a, b) {
      DatesOrdered(a, b);
    } else if DateBefore(b, a) {
      DatesOrdered(b, a);
    } else if TimeBefore(a, b) {
      TimesOrdered(a, b);
    } else if TimeBefore(b, a) {
      TimesOrdered(b, a);
    }
  }

  // ----- what the difference is

  /** The three components of the answer, before they are checked into their columns. */
  datatype Interval = Interval(months: int, days: int, micros: int) {
    function Negated(): Interval {
      Interval(-months, -days, -micros)
    }
  }

  const USECS_PER_DAY: int := 86_400_000_000

  function MonthIndex(c: Civil): int {
    c.year * 12 + c.month
  }

  /** Where an instant stands in its own month. */
  function IntoMonth(c: Civil): int {
    c.day * USECS_PER_DAY + c.TimeOfDay()
  }

  /** The whole months from `smaller` to `larger`: one fewer when the last is not complete. */
  function WholeMonths(larger: Civil, smaller: Civil): int {
    MonthIndex(larger) - MonthIndex(smaller) - if IntoMonth(larger) < IntoMonth(smaller) then 1 else 0
  }

  /** What is left past the whole months, an incomplete one counted at the smaller month's length. */
  function PastMonths(larger: Civil, smaller: Civil): int
    requires 1 <= smaller.month <= 12
  {
    IntoMonth(larger) - IntoMonth(smaller)
    + if IntoMonth(larger) < IntoMonth(smaller) then DaysInMonth(smaller.year, smaller.month) * USECS_PER_DAY else 0
  }

  function Elapsed(larger: Civil, smaller: Civil): Interval
    requires 1 <= smaller.month <= 12
  {
    var past := PastMonths(larger, smaller);
    Interval(WholeMonths(larger, smaller), past / USECS_PER_DAY, past % USECS_PER_DAY)
  }

  /** The difference of the larger from the smaller, negated when the arguments came the other way. */
  function Age(later: Civil, earlier: Civil): Interval
    requires later.Valid() && earlier.Valid()
  {
    if Before(later, earlier) then Elapsed(earlier, later).Negated() else Elapsed(later, earlier)
  }

  /** The largest part never goes negative, and the day part stays under a month. */
  lemma ElapsedInRange(larger: Civil, smaller: Civil)
    requires larger.Valid() && smaller.Valid() && !Before(larger, smaller)
    ensures 0 <= WholeMonths(larger, smaller)
    ensures 0 <= PastMonths(larger, smaller) < 31 * USECS_PER_DAY
    ensures var e := Elapsed(larger, smaller);
            0 <= e.months && 0 <= e.days <= 30 && 0 <= e.micros < USECS_PER_DAY
  {
    DaysInMonthIsLength(smaller.year, smaller.month);
    IntoMonthOrdered(larger, smaller);
    PastNotNegative(larger, smaller);
  }

  lemma IntoMonthOrdered(a: Civil, b: Civil)
    requires a.Valid() && b.Valid()
    ensures IntoMonth(a) < IntoMonth(b) <==> a.day < b.day || (a.day == b.day && TimeBefore(a, b))
    ensures (b.day - 1) * USECS_PER_DAY < IntoMonth(b)
  {
    TimeWithinDay(a);
    TimeWithinDay(b);
    DayThenTime(a.day, a.TimeOfDay(), b.day, b.TimeOfDay());
    if TimeBefore(a, b) {
      TimesOrdered(a, b);
    } else if TimeBefore(b, a) {
      TimesOrdered(b, a);
    }
  }

  lemma PastNotNegative(larger: Civil, smaller: Civil)
    requires larger.Valid() && smaller.Valid() && !Before(larger, smaller)
    ensures 0 <= PastMonths(larger, smaller) < 31 * USECS_PER_DAY
  {
    DaysInMonthIsLength(smaller.year, smaller.month);
    IntoMonthOrdered(larger, smaller);
    TimeWithinDay(larger);
    TimeWithinDay(smaller);
  }

  /** Counting every month at the smaller month's length, nothing is lost between the fields. */
  lemma DifferenceConserved(larger: Civil, smaller: Civil, month: int)
    requires larger.Valid() && smaller.Valid() && !Before(larger, smaller)
    requires month == DaysInMonth(smaller.year, smaller.month) * USECS_PER_DAY
    ensures var e := Elapsed(larger, smaller);
            e.months * month + e.days * USECS_PER_DAY + e.micros
            == (MonthIndex(larger) - MonthIndex(smaller)) * month + IntoMonth(larger) - IntoMonth(smaller)
  {
    var past, apart := PastMonths(larger, smaller), MonthIndex(larger) - MonthIndex(smaller);
    DivMod(past, USECS_PER_DAY);
    assert (apart - 1) * month == apart * month - month;
  }

  /** A month that is borrowed has its calendar length: the 30-day stand-in is never the one in use. */
  lemma BorrowedMonthIsReal(larger: Civil, smaller: Civil)
    requires larger.Valid() && smaller.Valid() && !Before(larger, smaller)
    requires IntoMonth(larger) < IntoMonth(smaller)
    ensures DaysInMonth(smaller.year, smaller.month) == MonthLength(smaller.year, smaller.month)
  {
    DaysInMonthIsLength(smaller.year, smaller.month);
    IntoMonthOrdered(larger, smaller);
  }

  /** The year and month a month index stands for. */
  function YearOf(index: int): int {
    (index - 1) / 12
  }

  function MonthOf(index: int): (month: int)
    ensures 1 <= month <= 12
  {
    (index - 1) % 12 + 1
  }

  lemma IndexOf(year: int, month: int)
    requires 1 <= month <= 12
    ensures YearOf(year * 12 + month) == year && MonthOf(year * 12 + month) == month
  {
  }

  /** One month on, the day number grows by the length of the month left behind. */
  lemma NextMonth(year: int, month: int, day: int)
    requires 1 <= month <= 12
    ensures var next := year * 12 + month + 1;
            DayNumber(YearOf(next), MonthOf(next), day) == DayNumber(year, month, day) + MonthLength(year, month)
  {
    YearLength(year);
    if month == 12 {
      IndexOf(year + 1, 1);
    } else {
      IndexOf(year, month + 1);
    }
  }

  /** The instant `c` moved back by whole months on the calendar, its day and time kept. */
  function MovedBack(c: Civil, months: int): int {
    var landing := MonthIndex(c) - months;
    DayNumber(YearOf(landing), MonthOf(landing), c.day) * USECS_PER_DAY + c.TimeOfDay()
  }

  /** Microseconds up to the day before a month's first. */
  function MonthStart(year: int, month: int): int {
    DayNumber(year, month, 0) * USECS_PER_DAY
  }

  lemma MicrosFromMonth(c: Civil)
    requires c.Valid()
    ensures c.Micros() == MonthStart(c.year, c.month) + IntoMonth(c)
  {
  }

  /** Moved back by the whole months, an instant stands in the smaller one's month or the next. */
  lemma LandsNearby(larger: Civil, smaller: Civil)
    requires larger.Valid() && smaller.Valid()
    ensures var extra := if IntoMonth(larger) < IntoMonth(smaller) then MonthLength(smaller.year, smaller.month) else 0;
            MovedBack(larger, WholeMonths(larger, smaller))
            == MonthStart(smaller.year, smaller.month) + extra * USECS_PER_DAY + IntoMonth(larger)
  {
    IndexOf(smaller.year, smaller.month);
    NextMonth(smaller.year, smaller.month, larger.day);
  }

  /** On the calendar: the larger instant less the whole months, less what is past them, is the smaller. */
  lemma ElapsedOnTheCalendar(larger: Civil, smaller: Civil)
    requires larger.Valid() && smaller.Valid() && !Before(larger, smaller)
    ensures var e := Elapsed(larger, smaller);
            MovedBack(larger, e.months) - (e.days * USECS_PER_DAY + e.micros) == smaller.Micros()
  {
    LandsNearby(larger, smaller);
    MicrosFromMonth(smaller);
    DivMod(PastMonths(larger, smaller), USECS_PER_DAY);
    if IntoMonth(larger) < IntoMonth(smaller) {
      BorrowedMonthIsReal(larger, smaller);
    }
  }

  lemma BeforeIsTotal(a: Civil, b: Civil)
    ensures !(Before(a, b) && Before(b, a))
    ensures a.Valid() && b.Valid() && !Before(a, b) && !Before(b, a) ==> a == b
  {
  }

  lemma ElapsedSelf(a: Civil)
    requires a.Valid()
    ensures Elapsed(a, a) == Interval(0, 0, 0)
  {
    DivModUnique(0, USECS_PER_DAY, 0, 0);
  }

  /** Swapping the arguments negates every component. */
  lemma AgeIsAntisymmetric(a: Civil, b: Civil)
    requires a.Valid() && b.Valid()
    ensures Age(a, b) == Age(b, a).Negated()
  {
    BeforeIsTotal(a, b);
    if !Before(a, b) && !Before(b, a) {
      ElapsedSelf(a);
    }
  }

  /** Two instants are a zero interval apart exactly when they are the same instant. */
  lemma AgeZero(a: Civil, b: Civil)
    requires a.Valid() && b.Valid()
    ensures Age(a, b) == Interval(0, 0, 0) <==> a == b
  {
    var larger, smaller := if Before(a, b) then b else a, if Before(a, b) then a else b;
    ElapsedInRange(larger, smaller);
    DaysInMonthIsLength(smaller.year, smaller.month);
    IntoMonthOrdered(larger, smaller);
    IntoMonthOrdered(smaller, larger);
    if Age(a, b) == Interval(0, 0, 0) {
      assert PastMonths(larger, smaller) == 0;
    }
  }

  // ----- the borrow machine

  /** The seven fields of a difference. */
  datatype Fields = Fields(year: int, month: int, day: int, hour: int, min: int, sec: int, usec: int)

  function FieldDifference(later: Civil, earlier: Civil, sign: int): Fields {
    Fields(sign * (later.year - earlier.year), sign * (later.month - earlier.month),
           sign * (later.day - earlier.day), sign * (later.hour - earlier.hour),
           sign * (later.min - earlier.min), sign * (later.sec - earlier.sec),
           sign * (later.usec - earlier.usec))
  }

  function Lends(x: int): int {
    if x < 0 then 1 else 0
  }

  function BorrowSecond(f: Fields): Fields {
    f.(usec := f.usec + Lends(f.usec) * USECS_PER_SEC, sec := f.sec - Lends(f.usec))
  }

  function BorrowMinute(f: Fields): Fields {
    f.(sec := f.sec + Lends(f.sec) * 60, min := f.min - Lends(f.sec))
  }

  function BorrowHour(f: Fields): Fields {
    f.(min := f.min + Lends(f.min) * 60, hour := f.hour - Lends(f.min))
  }

  function BorrowDay(f: Fields): Fields {
    f.(hour := f.hour + Lends(f.hour) * 24, day := f.day - Lends(f.hour))
  }

  function BorrowMonth(f: Fields, length: int): Fields {
    f.(day := if f.day < 0 then f.day + length else f.day, month := f.month - Lends(f.day))
  }

  function BorrowYear(f: Fields): Fields {
    f.(month := f.month + Lends(f.month) * 12, year := f.year - Lends(f.month))
  }

  function BorrowTimeOnce(f: Fields): Fields {
    BorrowDay(BorrowHour(BorrowMinute(BorrowSecond(f))))
  }

  /** Each field borrowing from the next at most once. */
  function BorrowOnce(f: Fields, length: int): Fields {
    BorrowYear(BorrowMonth(BorrowTimeOnce(f), length))
  }

  predicate TimeBorrowsOnce(f: Fields) {
    -USECS_PER_SEC <= f.usec && -60 < f.sec && -60 < f.min && -24 < f.hour
  }

  /** No field is so negative that it would borrow twice, even after lending one itself. */
  predicate BorrowsOnce(f: Fields, length: int) {
    TimeBorrowsOnce(f) && -length < f.day && -12 < f.month
  }

  class Difference {
    var year: int
    var month: int
    var day: int
    var hour: int
    var min: int
    var sec: int
    var usec: int

    function Value(): Fields
      reads this
    {
      Fields(year, month, day, hour, min, sec, usec)
    }

    constructor Of(later: Civil, earlier: Civil, sign: int)
      ensures Value() == FieldDifference(later, earlier, sign)
    {
      year := sign * (later.year - earlier.year);
      month := sign * (later.month - earlier.month);
      day := sign * (later.day - earlier.day);
      hour := sign * (later.hour - earlier.hour);
      min := sign * (later.min - earlier.min);
      sec := sign * (later.sec - earlier.sec);
      usec := sign * (later.usec - earlier.usec);
    }

    /** Carry the negative fields of the time up into the day, a constant borrowed at each step. */
    method BorrowTime()
      modifies this
      ensures 0 <= usec && 0 <= sec && 0 <= min && 0 <= hour
      ensures year == old(year) && month == old(month)
      ensures TimeBorrowsOnce(old(Value())) ==> Value() == BorrowTimeOnce(old(Value()))
    {
      ghost var f, once := Value(), TimeBorrowsOnce(Value());
      while usec < 0
        invariant year == f.year && month == f.month
        invariant once && usec < 0 ==> Value() == f
        invariant once && 0 <= usec ==> Value() == BorrowSecond(f)
      {
        usec := usec + USECS_PER_SEC;
        sec := sec - 1;
      }
      ghost var g := Value();
      while sec < 0
        invariant 0 <= usec && year == f.year && month == f.month
        invariant once && sec < 0 ==> Value() == g
        invariant once && 0 <= sec ==> Value() == BorrowMinute(g)
      {
        sec := sec + 60;
        min := min - 1;
      }
      ghost var h := Value();
      while min < 0
        invariant 0 <= usec && 0 <= sec && year == f.year && month == f.month
        invariant once && min < 0 ==> Value() == h
        invariant once && 0 <= min ==> Value() == BorrowHour(h)
      {
        min := min + 60;
        hour := hour - 1;
      }
      ghost var k := Value();
      while hour < 0
        invariant 0 <= usec && 0 <= sec && 0 <= min && year == f.year && month == f.month
        invariant once && hour < 0 ==> Value() == k
        invariant once && 0 <= hour ==> Value() == BorrowDay(k)
      {
        hour := hour + 24;
        day := day - 1;
      }
    }

    /**
     Carry every negative field up into the next one. Whatever the fields, none below the
     year is negative afterwards; and when none was too negative, every loop ran at most once.
     */
    method BorrowFrom(monthOf: Civil)
      requires 1 <= monthOf.month <= 12
      modifies this
      ensures 0 <= usec && 0 <= sec && 0 <= min && 0 <= hour && 0 <= day && 0 <= month
      ensures var length := DaysInMonth(monthOf.year, monthOf.month);
              BorrowsOnce(old(Value()), length) ==> Value() == BorrowOnce(old(Value()), length)
    {
      ghost var length := DaysInMonth(monthOf.year, monthOf.month);
      DaysInMonthIsLength(monthOf.year, monthOf.month);
      ghost var once := BorrowsOnce(Value(), length);
      BorrowTime();
      ghost var f := Value();
      while day < 0
        invariant 0 <= usec && 0 <= sec && 0 <= min && 0 <= hour
        invariant once && day < 0 ==> Value() == f
        invariant once && 0 <= day ==> Value() == BorrowMonth(f, length)
      {
        day := day + DaysInMonth(monthOf.year, monthOf.month);
        month := month - 1;
      }
      ghost var g := Value();
      while month < 0
        invariant 0 <= usec && 0 <= sec && 0 <= min && 0 <= hour && 0 <= day
        invariant once && month < 0 ==> Value() == g
        invariant once && 0 <= month ==> Value() == BorrowYear(g)
      {
        month := month + 12;
        year := year - 1;
      }
    }

    /** The four fields under a day as one count of microseconds. */
    function TimeOfDay(): int
      reads this
    {
      ((hour * 60 + min) * 60 + sec) * USECS_PER_SEC + usec
    }
  }

  // ----- the machine computes the difference

  /** Subtracting the smaller instant from the larger never leaves a field to borrow twice. */
  lemma DifferenceBorrowsOnce(larger: Civil, smaller: Civil)
    requires larger.Valid() && smaller.Valid() && !Before(larger, smaller)
    ensures BorrowsOnce(FieldDifference(larger, smaller, 1), DaysInMonth(smaller.year, smaller.month))
  {
    DaysInMonthIsLength(smaller.year, smaller.month);
  }

  function TimeOf(f: Fields): int {
    ((f.hour * 60 + f.min) * 60 + f.sec) * USECS_PER_SEC + f.usec
  }

  /** Borrowing inside the day moves time between the fields and keeps their sum. */
  lemma TimeConserved(f: Fields)
    requires TimeBorrowsOnce(f)
    ensures var g := BorrowTimeOnce(f);
            && g.day * USECS_PER_DAY + TimeOf(g) == f.day * USECS_PER_DAY + TimeOf(f)
            && (f.usec < USECS_PER_SEC && f.sec < 60 && f.min < 60 && f.hour < 24 ==> 0 <= TimeOf(g) < USECS_PER_DAY)
  {
  }

  /** A count of days and a time under one day is the only split of their sum. */
  lemma DaysAndTime(days: int, time: int, past: int)
    requires 0 <= time < USECS_PER_DAY && days * USECS_PER_DAY + time == past
    ensures days == past / USECS_PER_DAY && time == past % USECS_PER_DAY
  {
  }

  /** One borrow per field computes the whole months and what is past them. */
  lemma BorrowingIsElapsed(larger: Civil, smaller: Civil)
    requires larger.Valid() && smaller.Valid() && !Before(larger, smaller)
    ensures var b := BorrowOnce(FieldDifference(larger, smaller, 1), DaysInMonth(smaller.year, smaller.month));
            && 0 <= b.year && 0 <= b.month < 12
            && Elapsed(larger, smaller) == Interval(b.year * 12 + b.month, b.day, TimeOf(b))
  {
    var f, length := FieldDifference(larger, smaller, 1), DaysInMonth(smaller.year, smaller.month);
    DifferenceBorrowsOnce(larger, smaller);
    TimeConserved(f);
    var g, b := BorrowTimeOnce(f), BorrowOnce(f, length);
    var apart := IntoMonth(larger) - IntoMonth(smaller);
    assert g.day * USECS_PER_DAY + TimeOf(g) == apart;
    assert g.day < 0 <==> apart < 0;
    DaysAndTime(b.day, TimeOf(b), PastMonths(larger, smaller));
    ElapsedInRange(larger, smaller);
  }

  /** The interval, when each component fits its column. */
  function Checked(months: int, days: int, micros: int): Option<Interval> {
    if IsI32(months) && IsI32(days) && IsI64(micros * 1000)
    then Some(Interval(months, days, micros)) else None
  }

  lemma DifferenceFlips(a: Civil, b: Civil)
    ensures FieldDifference(a, b, -1) == FieldDifference(b, a, 1)
  {
  }

  /** The machine on the larger and the smaller instant, and that the answer fits with either sign. */
  lemma OrderedBorrowing(larger: Civil, smaller: Civil, b: Fields)
    requires larger.Valid() && smaller.Valid() && !Before(larger, smaller)
    requires b == BorrowOnce(FieldDifference(larger, smaller, 1), DaysInMonth(smaller.year, smaller.month))
    ensures BorrowsOnce(FieldDifference(larger, smaller, 1), DaysInMonth(smaller.year, smaller.month))
    ensures var e := Elapsed(larger, smaller);
            && Checked(b.year * 12 + b.month, b.day, TimeOf(b)) == Some(e)
            && Checked(-(b.year * 12 + b.month), -b.day, -TimeOf(b)) == Some(e.Negated())
  {
    DifferenceBorrowsOnce(larger, smaller);
    BorrowingIsElapsed(larger, smaller);
    ElapsedInRange(larger, smaller);
    AnswerFits(larger, smaller, Elapsed(larger, smaller));
  }

  /** What the sign and the borrows of the code come to, and that every component fits its column. */
  lemma SignedBorrowing(later: Civil, earlier: Civil, sign: int, smaller: Civil, b: Fields)
    requires later.Valid() && earlier.Valid()
    requires if Before(later, earlier) then sign == -1 && smaller == later else sign == 1 && smaller == earlier
    requires b == BorrowOnce(FieldDifference(later, earlier, sign), DaysInMonth(smaller.year, smaller.month))
    ensures BorrowsOnce(FieldDifference(later, earlier, sign), DaysInMonth(smaller.year, smaller.month))
    ensures Checked(sign * (b.year * 12 + b.month), sign * b.day, sign * TimeOf(b)) == Some(Age(later, earlier))
  {
    if Before(later, earlier) {
      DifferenceFlips(later, earlier);
      OrderedBorrowing(earlier, later, b);
    } else {
      OrderedBorrowing(later, earlier, b);
    }
  }

  lemma AnswerFits(larger: Civil, smaller: Civil, e: Interval)
    requires larger.Valid() && smaller.Valid()
    requires e == Elapsed(larger, smaller) && 0 <= e.months && 0 <= e.days <= 30 && 0 <= e.micros < USECS_PER_DAY
    ensures Checked(e.months, e.days, e.micros) == Some(e)
    ensures Checked(-e.months, -e.days, -e.micros) == Some(e.Negated())
  {
  }

  /** The comparison of the two microsecond counts. */
  method CameFirst(a: Civil, b: Civil) returns (first: bool)
    requires a.Valid() && b.Valid()
    ensures first <==> Before(a, b)
  {
    MicrosOrdered(a, b);
    first := a.Micros() < b.Micros();
  }

  /** `age(later, earlier)`: an answer for every pair of instants, and the one the calendar gives. */
  method AgeOf(later: Civil, earlier: Civil) returns (r: Option<Interval>)
    requires later.Valid() && earlier.Valid()
    ensures r == Some(Age(later, earlier))
  {
    var negated := CameFirst(later, earlier);
    var sign := if negated then -1 else 1;
    var monthOf := if negated then later else earlier;
    var difference := new Difference.Of(later, earlier, sign);
    ghost var b := BorrowOnce(difference.Value(), DaysInMonth(monthOf.year, monthOf.month));
    SignedBorrowing(later, earlier, sign, monthOf, b);
    difference.BorrowFrom(monthOf);
    assert difference.Value() == b;
    r := Checked(sign * (difference.year * 12 + difference.month), sign * difference.day,
                 sign * difference.TimeOfDay());
  }
}
