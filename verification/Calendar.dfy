/** Seconds since 1970 to a Gregorian date and time, as both printers of crates/perun-cli/src/store/dmap.rs do it. */
module Calendar {
  datatype Date = Date(year: int, month: int, day: int)

  datatype Stamp = Stamp(date: Date, hour: int, minute: int, second: int)

  // ── the Gregorian calendar, by counting ──────────────────────────────────

  predicate Leap(y: int) { y % 4 == 0 && (y % 100 != 0 || y % 400 == 0) }

  function YearLength(y: int): nat { if Leap(y) then 366 else 365 }

  function MonthLength(y: int, m: int): nat {
    if m == 2 then (if Leap(y) then 29 else 28)
    else if m == 4 || m == 6 || m == 9 || m == 11 then 30
    else 31
  }

  predicate RealDate(d: Date) { 1 <= d.month <= 12 && 1 <= d.day <= MonthLength(d.year, d.month) }

  predicate RealStamp(t: Stamp) { RealDate(t.date) && 0 <= t.hour < 24 && 0 <= t.minute < 60 && 0 <= t.second < 60 }

  /** Days from the start of 1970 to the start of year `y`, one year at a time. */
  function DaysToYear(y: int): int
    decreases if y < 1970 then 1970 - y else y - 1970
  {
    if y == 1970 then 0
    else if y > 1970 then DaysToYear(y - 1) + YearLength(y - 1)
    else DaysToYear(y + 1) - YearLength(y)
  }

  /** Days of year `y` before month `m`, one month at a time. */
  function DaysToMonth(y: int, m: int): int
    decreases m
  {
    if m <= 1 then 0 else DaysToMonth(y, m - 1) + MonthLength(y, m - 1)
  }

  /** Days from 1 January 1970. */
  function DayNumber(d: Date): int { DaysToYear(d.year) + DaysToMonth(d.year, d.month) + d.day - 1 }

  function Seconds(t: Stamp): int { DayNumber(t.date) * 86400 + t.hour * 3600 + t.minute * 60 + t.second }

  // ── the source's arithmetic ──────────────────────────────────────────────

  /** The day of the 400-year era starting on 1 March, as (year of era, day of that year). */
  function YearOfEra(doe: int): int { (doe - doe / 1460 + doe / 36524 - doe / 146096) / 365 }

  function DayOfYear(doe: int): int {
    var yoe := YearOfEra(doe);
    doe - (365 * yoe + yoe / 4 - yoe / 100)
  }

  /** Day `doy` of the year that starts on 1 March of year `y`. */
  function FromMarch(y: int, doy: int): Date {
    var mp := (5 * doy + 2) / 153;
    var d := doy - (153 * mp + 2) / 5 + 1;
    var month := if mp < 10 then mp + 3 else mp - 9;
    Date(if month <= 2 then y + 1 else y, month, d)
  }

  function Civil(days: int): Date {
    var z := days + 719468;
    var era, doe := z / 146097, z % 146097;
    FromMarch(YearOfEra(doe) + era * 400, DayOfYear(doe))
  }

  /** Days since Sunday; 1 January 1970 was a Thursday. */
  function Weekday(days: int): int { (days % 7 + 4) % 7 }

  /** The fields `unix_to_iso8601` prints. Dafny's division already is `div_euclid`. */
  function Iso8601(secs: int): Stamp {
    var days, rem := secs / 86400, secs % 86400;
    Stamp(Civil(days), rem / 3600, rem % 3600 / 60, rem % 60)
  }

  /** The indices and fields `unix_to_rfc1123` prints. */
  datatype Rfc1123 = Rfc1123(weekday: int, day: int, monthIndex: int, year: int, hour: int, minute: int, second: int)

  function Rfc(secs: int): Rfc1123 {
    var days, rem := secs / 86400, secs % 86400;
    var date := Civil(days);
    Rfc1123(Weekday(days), date.day, date.month - 1, date.year, rem / 3600, rem % 3600 / 60, rem % 60)
  }

  // ── closed forms ─────────────────────────────────────────────────────────

  /** Leap days up to and including year `y`, from year 1. */
  function LeapDays(y: int): int { y / 4 - y / 100 + y / 400 }

  lemma LeapDaysNext(y: int)
    ensures LeapDays(y) - LeapDays(y - 1) == if Leap(y) then 1 else 0
  {
    MultipleNext(y, 4);
    MultipleNext(y, 100);
    MultipleNext(y, 400);
  }

  lemma MultipleNext(y: int, n: int)
    requires n == 4 || n == 100 || n == 400
    ensures y / n - (y - 1) / n == if y % n == 0 then 1 else 0
  {
  }

  lemma {:induction false} DaysToYearClosed(y: int)
    ensures DaysToYear(y) == 365 * (y - 1970) + LeapDays(y - 1) - 477
    decreases if y < 1970 then 1970 - y else y - 1970
  {
    if y > 1970 {
      DaysToYearClosed(y - 1);
      LeapDaysNext(y - 1);
    } else if y < 1970 {
      DaysToYearClosed(y + 1);
      LeapDaysNext(y);
    }
  }

  /** March, as month 0, starts 59 or 60 days into the year; later months follow the 153-day pattern. */
  lemma DaysToMonthClosed(y: int, mp: int)
    requires 0 <= mp < 10
    ensures DaysToMonth(y, mp + 3) == 59 + (if Leap(y) then 1 else 0) + (153 * mp + 2) / 5
  {
    var leap := if Leap(y) then 1 else 0;
    assert DaysToMonth(y, 1) == 0 && DaysToMonth(y, 2) == 31;
    assert DaysToMonth(y, 3) == 59 + leap;
    assert DaysToMonth(y, 4) == 90 + leap;
    assert DaysToMonth(y, 5) == 120 + leap;
    assert DaysToMonth(y, 6) == 151 + leap;
    assert DaysToMonth(y, 7) == 181 + leap;
    assert DaysToMonth(y, 8) == 212 + leap;
    assert DaysToMonth(y, 9) == 243 + leap;
    assert DaysToMonth(y, 10) == 273 + leap;
    assert DaysToMonth(y, 11) == 304 + leap;
    assert DaysToMonth(y, 12) == 334 + leap;
  }

  // ── one era ──────────────────────────────────────────────────────────────

  /** Days of the era before its year `yoe`. */
  function EraDays(yoe: int): int { 365 * yoe + yoe / 4 - yoe / 100 }

  /** A day of the era as century, four-year cycle, year and day. */
  lemma SplitEra(doe: int) returns (c: int, q: int, r: int, k: int)
    requires 0 <= doe < 146097
    ensures 0 <= c <= 3 && 0 <= q <= 24 && 0 <= r <= 3 && 0 <= k <= 365
    ensures doe == 36524 * c + 1461 * q + 365 * r + k
    ensures k == 365 ==> r == 3 && (q == 24 ==> c == 3)
  {
    c := if doe / 36524 < 4 then doe / 36524 else 3;
    var in_century := doe - 36524 * c;
    q := in_century / 1461;
    var in_cycle := in_century - 1461 * q;
    r := if in_cycle / 365 < 4 then in_cycle / 365 else 3;
    k := in_cycle - 365 * r;
  }

  lemma YearOfSplit(doe: int, c: int, q: int, r: int, k: int)
    requires 0 <= c <= 3 && 0 <= q <= 24 && 0 <= r <= 3 && 0 <= k <= 365
    requires doe == 36524 * c + 1461 * q + 365 * r + k
    requires k == 365 ==> r == 3 && (q == 24 ==> c == 3)
    ensures YearOfEra(doe) == 100 * c + 4 * q + r
  {
    var early := if 24 * c + q + 365 * r + k >= 1460 then 1 else 0;
    assert doe / 1460 == 25 * c + q + early by {
      assert doe == 1460 * (25 * c + q + early) + (24 * c + q + 365 * r + k - 1460 * early);
    }
    var last := if doe == 146096 then 1 else 0;
    assert doe / 36524 == c + last && doe / 146096 == last;
    assert doe - doe / 1460 + doe / 36524 - doe / 146096 == 365 * (100 * c + 4 * q + r) + k - early;
  }

  lemma EraDaysOfSplit(c: int, q: int, r: int)
    requires 0 <= c <= 3 && 0 <= q <= 24 && 0 <= r <= 3
    ensures EraDays(100 * c + 4 * q + r) == 36524 * c + 1461 * q + 365 * r
  {
  }

  /** The year the formula picks contains the day, and only a leap year has its 366th. */
  lemma EraYear(doe: int)
    requires 0 <= doe < 146097
    ensures var yoe, doy := YearOfEra(doe), DayOfYear(doe);
            && 0 <= yoe < 400 && 0 <= doy <= 365 && doe == EraDays(yoe) + doy
            && (doy == 365 ==> Leap(yoe + 1))
  {
    var c, q, r, k := SplitEra(doe);
    YearOfSplit(doe, c, q, r, k);
    EraDaysOfSplit(c, q, r);
    if k == 365 { LeapOfSplit(c, q); }
  }

  lemma LeapOfSplit(c: int, q: int)
    requires 0 <= c <= 3 && 0 <= q <= 24 && (q == 24 ==> c == 3)
    ensures Leap(100 * c + 4 * q + 4)
  {
  }

  lemma LeapEra(y: int, era: int)
    ensures Leap(y + era * 400) == Leap(y)
    ensures LeapDays(y + era * 400) == LeapDays(y) + 97 * era
  {
    var z := y + era * 400;
    assert z == y + 4 * (100 * era) == y + 100 * (4 * era);
    Shift(y, 100 * era, 4);
    Shift(y, 4 * era, 100);
    Shift(y, era, 400);
  }

  lemma Shift(y: int, t: int, n: int)
    requires n == 4 || n == 100 || n == 400
    ensures (y + n * t) / n == y / n + t && (y + n * t) % n == y % n
  {
  }

  // ── the month ────────────────────────────────────────────────────────────

  lemma MonthOfDay(doy: int)
    requires 0 <= doy <= 365
    ensures var mp := (5 * doy + 2) / 153; var d := doy - (153 * mp + 2) / 5 + 1;
            0 <= mp <= 11 && 1 <= d <= (if mp == 11 then 29 else if mp == 1 || mp == 3 || mp == 6 || mp == 8 then 30 else 31)
            && (mp == 11 && d == 29 ==> doy == 365)
  {
  }

  /** The date the formula gives, seen from its year starting in March. */
  lemma MarchDate(y: int, doy: int)
    requires 0 <= doy <= 365 && (doy == 365 ==> Leap(y + 1))
    ensures RealDate(FromMarch(y, doy)) && DayNumber(FromMarch(y, doy)) == 365 * (y - 1970) + LeapDays(y) - 477 + 59 + doy
  {
    var mp := (5 * doy + 2) / 153;
    MonthOfDay(doy);
    if mp < 10 {
      DaysToMonthClosed(y, mp);
      DaysToYearClosed(y);
      LeapDaysNext(y);
    } else {
      DaysToYearClosed(y + 1);
      assert DaysToMonth(y + 1, 1) == 0 && DaysToMonth(y + 1, 2) == 31;
    }
  }

  /** The same within an era, with no division left. */
  lemma EraDate(era: int, yoe: int, doy: int)
    requires 0 <= yoe < 400 && 0 <= doy <= 365 && (doy == 365 ==> Leap(yoe + 1))
    ensures var date := FromMarch(yoe + era * 400, doy);
            RealDate(date) && DayNumber(date) == 146097 * era + EraDays(yoe) + doy - 719468
  {
    LeapEra(yoe, era);
    LeapEra(yoe + 1, era);
    MarchDate(yoe + era * 400, doy);
    assert LeapDays(yoe) == yoe / 4 - yoe / 100;
  }

  /** Every day number becomes a real date with exactly that day number. */
  lemma CivilIsExact(days: int)
    ensures RealDate(Civil(days)) && DayNumber(Civil(days)) == days
  {
    var z := days + 719468;
    var era, doe := z / 146097, z % 146097;
    EraYear(doe);
    DateOfEraDay(days, era, doe, YearOfEra(doe), DayOfYear(doe));
  }

  lemma DateOfEraDay(days: int, era: int, doe: int, yoe: int, doy: int)
    requires days + 719468 == 146097 * era + doe && doe == EraDays(yoe) + doy
    requires 0 <= yoe < 400 && 0 <= doy <= 365 && (doy == 365 ==> Leap(yoe + 1))
    ensures RealDate(FromMarch(yoe + era * 400, doy)) && DayNumber(FromMarch(yoe + era * 400, doy)) == days
  {
    EraDate(era, yoe, doy);
  }

  // ── order ────────────────────────────────────────────────────────────────

  predicate Before(a: Date, b: Date) {
    a.year < b.year || (a.year == b.year && (a.month < b.month || (a.month == b.month && a.day < b.day)))
  }

  lemma {:induction false} MonthsAdd(y: int, m: int, n: int)
    requires 1 <= m <= n <= 13
    ensures DaysToMonth(y, m) + (if m < n then MonthLength(y, m) else 0) <= DaysToMonth(y, n)
    decreases n - m
  {
    if m < n {
      if m < n - 1 { MonthsAdd(y, m, n - 1); }
    }
  }

  lemma WholeYear(y: int)
    ensures DaysToMonth(y, 13) == YearLength(y)
  {
  }

  lemma {:induction false} YearsAdd(y: int, z: int)
    requires y < z
    ensures DaysToYear(y) + YearLength(y) <= DaysToYear(z)
    decreases z - y
  {
    DaysToYearClosed(z);
    DaysToYearClosed(z - 1);
    LeapDaysNext(z - 1);
    if y < z - 1 { YearsAdd(y, z - 1); }
  }

  /** Counting days keeps the order of real dates. */
  lemma EarlierHasSmallerNumber(a: Date, b: Date)
    requires RealDate(a) && RealDate(b) && Before(a, b)
    ensures DayNumber(a) < DayNumber(b)
  {
    MonthsAdd(a.year, 1, a.month);
    MonthsAdd(b.year, 1, b.month);
    if a.year < b.year {
      MonthsAdd(a.year, a.month, 13);
      WholeYear(a.year);
      YearsAdd(a.year, b.year);
    } else if a.month < b.month {
      MonthsAdd(a.year, a.month, b.month);
    }
  }

  /** Day numbers identify dates: the formula is the only inverse. */
  lemma CivilInvertsDayNumber(d: Date)
    requires RealDate(d)
    ensures Civil(DayNumber(d)) == d
  {
    var c := Civil(DayNumber(d));
    CivilIsExact(DayNumber(d));
    if Before(c, d) {
      EarlierHasSmallerNumber(c, d);
    } else if Before(d, c) {
      EarlierHasSmallerNumber(d, c);
    }
  }

  predicate Earlier(a: Stamp, b: Stamp) {
    || Before(a.date, b.date)
    || (a.date == b.date && (a.hour < b.hour || (a.hour == b.hour && (a.minute < b.minute || (a.minute == b.minute && a.second < b.second)))))
  }

  lemma TimeOfDay(date: Date, rem: int)
    requires RealDate(date) && 0 <= rem < 86400
    ensures var t := Stamp(date, rem / 3600, rem % 3600 / 60, rem % 60);
            RealStamp(t) && Seconds(t) == DayNumber(date) * 86400 + rem
  {
  }

  /** Every second count becomes a real date and time of day, with exactly that many seconds. */
  lemma StampIsExact(secs: int)
    ensures RealStamp(Iso8601(secs)) && Seconds(Iso8601(secs)) == secs
  {
    CivilIsExact(secs / 86400);
    TimeOfDay(Civil(secs / 86400), secs % 86400);
  }

  lemma SecondsOrder(x: Stamp, y: Stamp)
    requires RealStamp(x) && RealStamp(y)
    ensures Seconds(x) < Seconds(y) <==> Earlier(x, y)
  {
    if Before(x.date, y.date) {
      EarlierHasSmallerNumber(x.date, y.date);
    } else if Before(y.date, x.date) {
      EarlierHasSmallerNumber(y.date, x.date);
    }
  }

  /** Later seconds print a later stamp, for all seconds and in both directions. */
  lemma OrderPreserved(a: int, b: int)
    ensures a < b <==> Earlier(Iso8601(a), Iso8601(b))
  {
    StampIsExact(a);
    StampIsExact(b);
    SecondsOrder(Iso8601(a), Iso8601(b));
  }

  /** The other printer's fields are that exact date and time too, and both name tables are indexed in range. */
  lemma DateLineIsExact(secs: int)
    ensures var r := Rfc(secs);
            && var t := Stamp(Date(r.year, r.monthIndex + 1, r.day), r.hour, r.minute, r.second);
            && RealStamp(t) && Seconds(t) == secs && t == Iso8601(secs)
            && 0 <= r.monthIndex < 12 && 0 <= r.weekday < 7
  {
    StampIsExact(secs);
  }

  /** The weekday counts on from Thursday (4, with Sunday 0) by one a day, and never changes within a day. */
  lemma WeekdayAdvances(secs: int)
    ensures Rfc(0).weekday == 4
    ensures Rfc(secs + 86400).weekday == (Rfc(secs).weekday + 1) % 7
    ensures Rfc(secs).weekday == Rfc(secs - secs % 86400).weekday
  {
    var days := secs / 86400;
    assert (secs + 86400) / 86400 == days + 1;
    assert (secs - secs % 86400) / 86400 == days;
    WeekdayNext(days);
    assert Rfc(secs + 86400).weekday == Weekday(days + 1);
  }

  lemma WeekdayNext(days: int)
    ensures Weekday(0) == 4 && Weekday(days + 1) == (Weekday(days) + 1) % 7
  {
  }
}
