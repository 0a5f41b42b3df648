/**
 Gregorian calendar arithmetic: the era-based formulas against a plain count of
 year and month lengths, and against each other.
 */
module Calendar {
  import opened Wrappers

  const SECONDS_PER_DAY := 86400

  // ----- the calendar, counted

  predicate IsLeap(y: int) { y % 4 == 0 && (y % 100 != 0 || y % 400 == 0) }

  function YearLength(y: int): nat { if IsLeap(y) then 366 else 365 }

  /** Section 5.7 of RFC 3339. */
  function MonthLength(y: int, m: int): nat
    requires 1 <= m <= 12
  {
    if m == 2 then (if IsLeap(y) then 29 else 28)
    else if m == 4 || m == 6 || m == 9 || m == 11 then 30 else 31
  }

  /** Days from 1970-01-01 to the first day of year `y`. */
  function DaysBeforeYear(y: int): int
    decreases if y > 1970 then y - 1970 else 1970 - y
  {
    if y == 1970 then 0
    else if y > 1970 then DaysBeforeYear(y - 1) + YearLength(y - 1)
    else DaysBeforeYear(y + 1) - YearLength(y)
  }

  function DaysBeforeMonth(y: int, m: int): nat
    requires 1 <= m <= 12
  {
    if m == 1 then 0 else DaysBeforeMonth(y, m - 1) + MonthLength(y, m - 1)
  }

  datatype Date = Date(y: int, m: int, d: int)

  predicate InRange(t: Date) { 1 <= t.m <= 12 && 1 <= t.d <= 31 }

  predicate Valid(t: Date) { 1 <= t.m <= 12 && 1 <= t.d <= MonthLength(t.y, t.m) }

  /** The number of days from 1970-01-01 to the date. */
  function DayNumber(t: Date): int
    requires 1 <= t.m <= 12
  {
    DaysBeforeYear(t.y) + DaysBeforeMonth(t.y, t.m) + t.d - 1
  }

  // ----- the formulas

  /** Rust's `/` on signed integers. */
  function TruncDiv(a: int, b: nat): int
    requires b > 0
  {
    if a >= 0 then a / b else -((-a) / b)
  }

  /** The shared body of `unix_from_civil` and `parse_utc_epoch`, given the era of the March-based year. */
  function DaysInEra(t: Date, march: int, era: int): int {
    var yoe := march - era * 400;
    var mp := if t.m > 2 then t.m - 3 else t.m + 9;
    var doy := (153 * mp + 2) / 5 + t.d - 1;
    var doe := yoe * 365 + yoe / 4 - yoe / 100 + doy;
    era * 146097 + doe - 719468
  }

  function MarchYear(t: Date): int { if t.m <= 2 then t.y - 1 else t.y }

  /** ack-stage computes the era with `div_euclid`. */
  function DaysFromCivil(t: Date): int { DaysInEra(t, MarchYear(t), MarchYear(t) / 400) }

  /** admission-reason computes it with a truncating division behind a sign test. */
  function EraBySignTest(march: int): int { TruncDiv(if march >= 0 then march else march - 399, 400) }

  /** The year of the era from the day of the era. */
  function YearOfEra(doe: int): int { (doe - doe / 1460 + doe / 36524 - doe / 146096) / 365 }

  function DayOfYear(doe: int, yoe: int): int { doe - (365 * yoe + yoe / 4 - yoe / 100) }

  /** Month and day of a March-based year. */
  function FromMarch(march: int, doy: int): Date {
    var mp := (5 * doy + 2) / 153;
    var d := doy - (153 * mp + 2) / 5 + 1;
    var m := if mp < 10 then mp + 3 else mp - 9;
    Date(if m <= 2 then march + 1 else march, m, d)
  }

  /** The inverse, as `chrono_like_now` and `epoch_to_stamp` compute it. */
  function CivilFromDays(days: int): Date {
    var z := days + 719468;
    var era := TruncDiv(if z >= 0 then z else z - 146096, 146097);
    FromEra(era, z - era * 146097)
  }

  function FromEra(era: int, doe: int): Date {
    FromMarch(YearOfEra(doe) + era * 400, DayOfYear(doe, YearOfEra(doe)))
  }

  // ----- formula = count

  lemma TruncWithOffsetIsFloor(a: int, b: nat)
    requires b > 0
    ensures TruncDiv(if a >= 0 then a else a - (b as int - 1), b) == a / b
  {
    if a < 0 {
      var q := a / b;
      var n := -(a - (b as int - 1));
      assert q * b <= a < q * b + b;
      assert n == -a + b - 1;
      assert -q * b <= n < -q * b + b by { assert (-q) * b == -(q * b); }
      DivUnique(n, b, -q);
    }
  }

  lemma DivUnique(a: int, b: nat, q: int)
    requires b > 0 && q * b <= a < q * b + b
    ensures a / b == q
  {
    var p := a / b;
    assert p * b <= a < p * b + b;
    assert p < q ==> (p + 1) * b <= q * b;
    assert p > q ==> (q + 1) * b <= p * b;
  }

  /** Leap years up to and including `y`, plus 365 days a year. */
  function Linear(y: int): int { 365 * y + y / 4 - y / 100 + y / 400 }

  lemma LinearStep(y: int)
    ensures Linear(y) - Linear(y - 1) == YearLength(y)
  {
    QuotientStep(y, 4);
    QuotientStep(y, 100);
    QuotientStep(y, 400);
  }

  lemma QuotientStep(y: int, k: nat)
    requires k >= 2
    ensures y / k - (y - 1) / k == if y % k == 0 then 1 else 0
  {
    var q, r := y / k, y % k;
    assert y == q * k + r;
    if r == 0 {
      assert (q - 1) * k == q * k - k;
      DivUnique(y - 1, k, q - 1);
    } else {
      DivUnique(y - 1, k, q);
    }
  }

  lemma {:induction false} YearsAreLinear(y: int)
    ensures DaysBeforeYear(y) == Linear(y - 1) + 365 - 719527
    decreases if y > 1970 then y - 1970 else 1970 - y
  {
    if y > 1970 {
      YearsAreLinear(y - 1);
      LinearStep(y - 1);
    } else if y < 1970 {
      YearsAreLinear(y + 1);
      LinearStep(y);
    }
  }

  lemma EraIsLinear(march: int)
    ensures
      var era := march / 400;
      var yoe := march - era * 400;
      0 <= yoe < 400 && era * 146097 + yoe * 365 + yoe / 4 - yoe / 100 == Linear(march)
  {
    var era := march / 400;
    var yoe := march - era * 400;
    DivUnique(march, 4, era * 100 + yoe / 4);
    DivUnique(march, 100, era * 4 + yoe / 100);
  }

  /** March-based month starts, against the January-based count. */
  lemma MonthStarts(y: int, m: int)
    requires 1 <= m <= 12
    ensures
      var mp := if m > 2 then m - 3 else m + 9;
      DaysBeforeMonth(y, m) ==
      (153 * mp + 2) / 5 + (if m > 2 then 59 + (if IsLeap(y) then 1 else 0) else -306)
  {
    if m > 1 { MonthStarts(y, m - 1); }
  }

  /** The era formula counts days, for every year and any day of the month. */
  lemma FormulaCountsDays(t: Date)
    requires 1 <= t.m <= 12
    ensures DaysFromCivil(t) == DayNumber(t)
  {
    var march := MarchYear(t);
    EraIsLinear(march);
    MonthStarts(t.y, t.m);
    YearsAreLinear(t.y);
    LinearStep(t.y);
  }

  lemma ErasAgree(march: int)
    ensures EraBySignTest(march) == march / 400
  {
    TruncWithOffsetIsFloor(march, 400);
  }

  // ----- civil from days

  /** Day `s` of 4-year cycle `q` of century `c`: the corrections cancel the leap days exactly. */
  lemma YearOfCycle(c: int, q: int, s: int, k: int)
    requires 0 <= c <= 3 && 0 <= q <= 24 && 0 <= s <= 1460 && (q == 24 ==> s < 1460)
    requires 0 <= k <= 3 && 365 * k <= s && (k < 3 ==> s < 365 * k + 365)
    ensures YearOfEra(36524 * c + 1461 * q + s) == 100 * c + 4 * q + k
  {
    var doe := 36524 * c + 1461 * q + s;
    var e := if 24 * c + q + s >= 1460 then 1 else 0;
    DivUnique(doe, 36524, c);
    DivUnique(doe, 1460, 25 * c + q + e);
    DivUnique(doe, 146096, 0);
    DivUnique(36500 * c + 1460 * q + s - e, 365, 100 * c + 4 * q + k);
  }

  lemma DayOfCycle(c: int, q: int, s: int, k: int)
    requires 0 <= c <= 3 && 0 <= q <= 24 && 0 <= k <= 3
    ensures DayOfYear(36524 * c + 1461 * q + s, 100 * c + 4 * q + k) == s - 365 * k
  {
    DivUnique(100 * c + 4 * q + k, 4, 25 * c + q);
    DivUnique(100 * c + 4 * q + k, 100, c);
  }

  /** The year-of-era quotient is exact over the whole 400-year cycle. */
  lemma YearOfEraIsExact(doe: int)
    requires 0 <= doe < 146097
    ensures
      var yoe := YearOfEra(doe);
      && 0 <= yoe < 400
      && 0 <= DayOfYear(doe, yoe) <= 365
      && (DayOfYear(doe, yoe) == 365 ==> yoe % 4 == 3 && (yoe % 100 != 99 || yoe == 399))
  {
    if doe < 146096 {
      var c, q, s, k := CyclesOf(doe);
      YearOfCycle(c, q, s, k);
      DayOfCycle(c, q, s, k);
      YearParts(c, q, k);
    }
  }

  /** Century, 4-year cycle, day of the cycle and year of the cycle. */
  lemma CyclesOf(doe: int) returns (c: int, q: int, s: int, k: int)
    requires 0 <= doe < 146096
    ensures doe == 36524 * c + 1461 * q + s
    ensures 0 <= c <= 3 && 0 <= q <= 24 && 0 <= s <= 1460 && (q == 24 ==> s < 1460)
    ensures 0 <= k <= 3 && 365 * k <= s && (k < 3 ==> s < 365 * k + 365)
  {
    c := doe / 36524;
    var r := doe % 36524;
    q, s := r / 1461, r % 1461;
    k := if s < 1460 then s / 365 else 3;
  }

  lemma YearParts(c: int, q: int, k: int)
    requires 0 <= c <= 3 && 0 <= q <= 24 && 0 <= k <= 3
    ensures
      var yoe := 100 * c + 4 * q + k;
      yoe % 4 == k && yoe % 100 == 4 * q + k
  {
    var yoe := 100 * c + 4 * q + k;
    DivUnique(yoe, 4, 25 * c + q);
    DivUnique(yoe, 100, c);
  }

  /** Splitting the day of a March-based year into month and day. */
  lemma MonthOfMarchYear(doy: int)
    requires 0 <= doy <= 365
    ensures
      var mp := (5 * doy + 2) / 153;
      0 <= mp <= 11 && (153 * mp + 2) / 5 <= doy < (153 * (mp + 1) + 2) / 5
  {
  }

  /** February of the March-based year `march` belongs to the next calendar year. */
  lemma LeapYearOfEra(era: int, yoe: int)
    requires 0 <= yoe < 400
    ensures IsLeap(yoe + era * 400 + 1) <==> yoe % 4 == 3 && (yoe % 100 != 99 || yoe == 399)
  {
    var y := yoe + era * 400 + 1;
    DivUnique(y, 4, (yoe + 1) / 4 + 100 * era);
    DivUnique(y, 100, (yoe + 1) / 100 + 4 * era);
    DivUnique(y, 400, (yoe + 1) / 400 + era);
  }

  /** Month and day cut out of a March-based year form a real date with the same day of that year. */
  lemma MonthFits(march: int, doy: int)
    requires 0 <= doy <= 365 && (doy == 365 ==> IsLeap(march + 1))
    ensures
      var t := FromMarch(march, doy);
      && Valid(t) && MarchYear(t) == march
      && (153 * (if t.m > 2 then t.m - 3 else t.m + 9) + 2) / 5 + t.d - 1 == doy
  {
    MonthOfMarchYear(doy);
    var mp := (5 * doy + 2) / 153;
    if mp <= 3 {
    } else if mp <= 7 {
    }
  }

  /** Rebuilding the day count from era, year of era and day of year loses nothing. */
  lemma EraRebuilds(era: int, yoe: int, doy: int)
    requires 0 <= yoe < 400 && 0 <= doy <= 365
    requires doy == 365 ==> yoe % 4 == 3 && (yoe % 100 != 99 || yoe == 399)
    ensures Valid(FromMarch(yoe + era * 400, doy))
    ensures DayNumber(FromMarch(yoe + era * 400, doy)) == era * 146097 + (365 * yoe + yoe / 4 - yoe / 100 + doy) - 719468
  {
    var t := FromMarch(yoe + era * 400, doy);
    LeapYearOfEra(era, yoe);
    MonthFits(yoe + era * 400, doy);
    FormulaOfMarch(t, era, yoe, doy);
    FormulaCountsDays(t);
  }

  lemma FormulaOfMarch(t: Date, era: int, yoe: int, doy: int)
    requires 0 <= yoe < 400 && MarchYear(t) == yoe + era * 400
    requires (153 * (if t.m > 2 then t.m - 3 else t.m + 9) + 2) / 5 + t.d - 1 == doy
    ensures DaysFromCivil(t) == era * 146097 + (365 * yoe + yoe / 4 - yoe / 100 + doy) - 719468
  {
    DivUnique(yoe + era * 400, 400, era);
  }

  /** Civil-from-days returns a real date, and that date's day number is the input. */
  lemma CivilCountsBack(days: int)
    ensures Valid(CivilFromDays(days)) && DayNumber(CivilFromDays(days)) == days
  {
    hide FromMarch, YearOfEra, DayOfYear, TruncDiv, Valid, DayNumber;
    var era, doe := EraAndDay(days + 719468);
    var yoe := YearOfEra(doe);
    YearOfEraIsExact(doe);
    EraRebuilds(era, yoe, DayOfYear(doe, yoe));
    DayOfEra(doe, yoe);
  }

  /** The sign test finds the floor, and what is left is a day of that era. */
  lemma EraAndDay(z: int) returns (era: int, doe: int)
    ensures TruncDiv(if z >= 0 then z else z - 146096, 146097) == era
    ensures z == era * 146097 + doe && 0 <= doe < 146097
  {
    TruncWithOffsetIsFloor(z, 146097);
    era, doe := z / 146097, z % 146097;
  }

  lemma DayOfEra(doe: int, yoe: int)
    ensures 365 * yoe + yoe / 4 - yoe / 100 + DayOfYear(doe, yoe) == doe
  {
  }

  // ----- order, and the two inverses

  predicate Before(a: Date, b: Date) {
    a.y < b.y || (a.y == b.y && (a.m < b.m || (a.m == b.m && a.d < b.d)))
  }

  lemma {:induction false} MonthsGrow(y: int, m: int, n: int)
    requires 1 <= m < n <= 12
    ensures DaysBeforeMonth(y, m) + MonthLength(y, m) <= DaysBeforeMonth(y, n)
  {
    if n > m + 1 { MonthsGrow(y, m, n - 1); }
  }

  lemma YearEnds(y: int)
    ensures DaysBeforeMonth(y, 12) + MonthLength(y, 12) == YearLength(y)
    ensures DaysBeforeYear(y + 1) == DaysBeforeYear(y) + YearLength(y)
  {
    MonthStarts(y, 12);
    YearsAreLinear(y);
    YearsAreLinear(y + 1);
    LinearStep(y);
  }

  lemma {:induction false} YearsGrow(y: int, z: int)
    requires y < z
    ensures DaysBeforeYear(y) + YearLength(y) <= DaysBeforeYear(z)
    decreases z - y
  {
    YearEnds(z - 1);
    if y < z - 1 { YearsGrow(y, z - 1); }
  }

  lemma DayWithinYear(t: Date)
    requires Valid(t)
    ensures DaysBeforeYear(t.y) <= DayNumber(t) < DaysBeforeYear(t.y) + YearLength(t.y)
  {
    YearEnds(t.y);
    if t.m < 12 { MonthsGrow(t.y, t.m, 12); }
  }

  /** Day numbers order real dates as the calendar does. */
  lemma DayNumberIsMonotone(a: Date, b: Date)
    requires Valid(a) && Valid(b) && Before(a, b)
    ensures DayNumber(a) < DayNumber(b)
  {
    if a.y < b.y {
      DayWithinYear(a);
      DayWithinYear(b);
      YearsGrow(a.y, b.y);
    } else if a.m < b.m {
      MonthsGrow(a.y, a.m, b.m);
    }
  }

  /**
   The formulas accept any day up to 31.  They are undone by civil-from-days
   exactly when the day exists in its month (section 5.7 of RFC 3339).
   */
  lemma RoundTripIffValid(t: Date)
    requires InRange(t)
    ensures CivilFromDays(DaysFromCivil(t)) == t <==> Valid(t)
  {
    FormulaCountsDays(t);
    var back := CivilFromDays(DayNumber(t));
    CivilCountsBack(DayNumber(t));
    if Valid(t) && back != t {
      if Before(t, back) { DayNumberIsMonotone(t, back); } else { DayNumberIsMonotone(back, t); }
    }
  }

  // ----- seconds

  datatype Time = Time(h: int, mi: int, s: int)

  function SecondOfDay(c: Time): int { c.h * 3600 + c.mi * 60 + c.s }

  /** ack-stage: refuses out-of-range fields and everything before 1970. */
  function UnixFromCivil(t: Date, c: Time): Option<nat>
    requires t.m >= 0 && t.d >= 0 && c.h >= 0 && c.mi >= 0 && c.s >= 0
  {
    if !(1 <= t.m <= 12) || t.d == 0 || t.d > 31 || c.h > 23 || c.mi > 59 || c.s > 60 then None
    else
      var secs := DaysFromCivil(t) * SECONDS_PER_DAY + c.h * 3600 + c.mi * 60 + c.s;
      if secs >= 0 then Some(secs) else None
  }

  /** admission-reason: checks month and day only. */
  function EpochFromFields(t: Date, c: Time): Option<int> {
    if !(1 <= t.m <= 12) || !(1 <= t.d <= 31) then None
    else
      var days := DaysInEra(t, MarchYear(t), EraBySignTest(MarchYear(t)));
      Some(days * SECONDS_PER_DAY + c.h * 3600 + c.mi * 60 + c.s)
  }

  predicate ClockInRange(c: Time) { 0 <= c.h <= 23 && 0 <= c.mi <= 59 && 0 <= c.s <= 60 }

  /** The plain count of seconds since 1970. */
  function Seconds(t: Date, c: Time): int
    requires 1 <= t.m <= 12
  {
    DayNumber(t) * SECONDS_PER_DAY + SecondOfDay(c)
  }

  /** Both converters compute the plain count, on all inputs they accept. */
  lemma ConvertersCount(t: Date, c: Time)
    requires t.m >= 0 && t.d >= 0 && c.h >= 0 && c.mi >= 0 && c.s >= 0
    ensures EpochFromFields(t, c) == if InRange(t) then Some(Seconds(t, c)) else None
    ensures UnixFromCivil(t, c) ==
            if InRange(t) && ClockInRange(c) && Seconds(t, c) >= 0 then Some(Seconds(t, c)) else None
  {
    if InRange(t) {
      FormulaCountsDays(t);
      ErasAgree(MarchYear(t));
    }
  }

  /** From 1970 on, the sign test of `UnixFromCivil` never bites on a real date. */
  lemma FromTheEpochOn(t: Date, c: Time)
    requires Valid(t) && t.y >= 1970 && ClockInRange(c)
    ensures UnixFromCivil(t, c) == Some(Seconds(t, c))
  {
    DayWithinYear(t);
    if t.y > 1970 { YearsGrow(1970, t.y); }
    ConvertersCount(t, c);
  }

  predicate Earlier(a: Date, p: Time, b: Date, q: Time) {
    Before(a, b) || (a == b && (p.h < q.h || (p.h == q.h && (p.mi < q.mi || (p.mi == q.mi && p.s < q.s)))))
  }

  /** The minute count of a date-time, and whether `q` opens the minute right after `p`. */
  function Minutes(t: Date, c: Time): int
    requires 1 <= t.m <= 12
  {
    DayNumber(t) * 1440 + c.h * 60 + c.mi
  }

  /**
   Later date-times get strictly more seconds, with one exact exception: a leap
   second `:60` and the `:00` of the minute right after it are the same number.
   */
  lemma SecondsAreMonotone(a: Date, p: Time, b: Date, q: Time)
    requires Valid(a) && Valid(b) && ClockInRange(p) && ClockInRange(q) && Earlier(a, p, b, q)
    ensures Seconds(a, p) <= Seconds(b, q)
    ensures Seconds(a, p) == Seconds(b, q) <==> p.s == 60 && q.s == 0 && Minutes(b, q) == Minutes(a, p) + 1
  {
    if Before(a, b) { DayNumberIsMonotone(a, b); }
    assert Seconds(a, p) == Minutes(a, p) * 60 + p.s;
    assert Seconds(b, q) == Minutes(b, q) * 60 + q.s;
    assert Minutes(a, p) <= Minutes(b, q);
  }

  /** A day past the end of its month is accepted, and collides with a day of the next month. */
  lemma NonexistentDayCollides(t: Date, c: Time)
    requires InRange(t) && !Valid(t) && ClockInRange(c)
    ensures t.m < 12
    ensures
      var next := Date(t.y, t.m + 1, t.d - MonthLength(t.y, t.m));
      Valid(next) && UnixFromCivil(t, c) == UnixFromCivil(next, c) && EpochFromFields(t, c) == EpochFromFields(next, c)
  {
    var next := Date(t.y, t.m + 1, t.d - MonthLength(t.y, t.m));
    assert DayNumber(t) == DayNumber(next);
    ConvertersCount(t, c);
    ConvertersCount(next, c);
  }
}
