/**
 Calendar arithmetic of contracts/leaseflow_contracts/src/proration.rs and
 crates/leaseflow_math/src/lib.rs: Hinnant's closed forms against the calendar stepped day by day.
 The calendar is that of section 5.7 and Appendix C of RFC 3339.
 */
module Calendar {
  import opened Arith

  datatype Date = Date(year: nat, month: nat, day: nat)

  predicate IsLeapYear(year: nat) { (year % 4 == 0 && year % 100 != 0) || year % 400 == 0 }

  function DaysInMonth(year: nat, month: nat): (days: nat)
    ensures 28 <= days <= 31
  {
    if month in {4, 6, 9, 11} then 30
    else if month == 2 then (if IsLeapYear(year) then 29 else 28)
    else 31
  }

  predicate ValidDate(d: Date) {
    1 <= d.month <= 12 && 1 <= d.day <= DaysInMonth(d.year, d.month) && (d.year == 0 ==> d.month >= 3)
  }

  // ---- The reference: one day after another from 1970-01-01 ----

  function NextDay(d: Date): Date {
    if d.day < DaysInMonth(d.year, d.month) then d.(day := d.day + 1)
    else if d.month < 12 then Date(d.year, d.month + 1, 1)
    else Date(d.year + 1, 1, 1)
  }

  function DateAfter(days: nat): Date {
    if days == 0 then Date(1970, 1, 1) else NextDay(DateAfter(days - 1))
  }

  // ---- The closed forms ----

  // Year of a 400-year era that begins on 1 March, from the day of the era.
  function YearOfEra(doe: nat): int { (doe - doe / 1460 + doe / 36524 - doe / 146096) / 365 }

  // Day of a year that begins on 1 March to that year's month and day.
  function MonthOfDay(doy: int): int { (5 * doy + 2) / 153 }
  function MonthStart(mp: int): int { (153 * mp + 2) / 5 }

  function CivilMonth(mp: int): int { if mp < 10 then mp + 3 else mp - 9 }

  // A day of an era: the year that it lies in, and its day of that year, which begins in March.
  function EraDay(era: nat, doe: nat): (yd: (nat, nat))
    requires doe < 146097
    ensures yd.1 < 366
  {
    var yoe := YearOfEra(doe);
    DayOfYearRange(doe);
    (yoe + era * 400, doe - (365 * yoe + yoe / 4 - yoe / 100))
  }

  // The body of timestamp_to_ymd, for a day counted from 0000-03-01: first the year that begins in
  // March and the day within it, then the civil date.
  function YearAndDay(z: nat): (nat, nat) {
    var era := z / 146097;
    DivisionExact(z, 146097);
    EraDay(era, z - era * 146097)
  }

  function CivilDate(y: nat, doy: nat): Date
    requires doy < 366
  {
    MonthRange(doy);
    var mp := MonthOfDay(doy);
    var m := CivilMonth(mp);
    Date(if m <= 2 then y + 1 else y, m, doy - MonthStart(mp) + 1)
  }

  function CivilFromDay(z: nat): Date {
    YearAndDayExact(z);
    CivilDate(YearAndDay(z).0, YearAndDay(z).1)
  }

  function TimestampToYmd(timestamp: nat): Date { CivilFromDay(timestamp / 86400 + 719468) }

  // The day count of ymd_to_timestamp, from 0000-03-01; year 0 has only its last ten months.
  function DayFromCivil(date: Date): nat
    requires ValidDate(date)
  {
    var y := if date.month <= 2 then date.year - 1 else date.year;
    var m := if date.month <= 2 then date.month + 9 else date.month - 3;
    var era := y / 400;
    var yoe := y - era * 400;
    var doy := MonthStart(m) + date.day - 1;
    era * 146097 + (yoe * 365 + yoe / 4 - yoe / 100 + doy)
  }

  function YmdToTimestamp(date: Date): nat
    requires ValidDate(date)
  {
    SatSub(DayFromCivil(date), 719468) * 86400
  }

  // ---- Years that begin in March ----

  // Days before 1 March of year y.
  function YearStart(y: nat): int { 365 * y + y / 4 - y / 100 + y / 400 }

  lemma QuotientStep(y: nat, k: nat)
    requires k > 0
    ensures (y + 1) / k == y / k + (if (y + 1) % k == 0 then 1 else 0)
  {
    var q, r := y / k, y % k;
    if r == k - 1 {
      assert y + 1 == k * (q + 1);
      DivisionUnique(y + 1, k, q + 1, 0);
    } else {
      DivisionUnique(y + 1, k, q, r + 1);
    }
  }

  function MarchYearLength(y: nat): nat { if IsLeapYear(y + 1) then 366 else 365 }

  lemma YearStartStep(y: nat)
    ensures YearStart(y + 1) == YearStart(y) + MarchYearLength(y)
  {
    QuotientStep(y, 4);
    QuotientStep(y, 100);
    QuotientStep(y, 400);
    LeapDivisors(y + 1);
  }

  lemma LeapDivisors(y: nat)
    ensures y % 400 == 0 ==> y % 100 == 0
    ensures y % 100 == 0 ==> y % 4 == 0
  {
    DivisionExact(y, 400);
    DivisionExact(y, 100);
    if y % 400 == 0 { DivisionUnique(y, 100, 4 * (y / 400), 0); }
    if y % 100 == 0 { DivisionUnique(y, 4, 25 * (y / 100), 0); }
  }

  lemma {:induction false} YearStartMonotone(y: nat, y': nat)
    requires y <= y'
    ensures YearStart(y) <= YearStart(y')
    decreases y'
  {
    if y < y' {
      YearStartMonotone(y, y' - 1);
      YearStartStep(y' - 1);
    }
  }

  // A day of the year count fixes year and day of year.
  lemma YearSplitUnique(y: nat, doy: nat, y': nat, doy': nat)
    requires YearStart(y) + doy == YearStart(y') + doy'
    requires doy < MarchYearLength(y) && doy' < MarchYearLength(y')
    ensures y == y' && doy == doy'
  {
    YearStartStep(y);
    YearStartStep(y');
    YearStartMonotone(Min(y + 1, y'), y');
    YearStartMonotone(Min(y' + 1, y), y);
  }

  lemma EraPeriod(era: nat, yoe: nat)
    requires yoe < 400
    ensures YearStart(yoe + era * 400) == era * 146097 + 365 * yoe + yoe / 4 - yoe / 100
  {
    var y := yoe + era * 400;
    DivisionUnique(y, 4, yoe / 4 + 100 * era, yoe % 4);
    DivisionUnique(y, 100, yoe / 100 + 4 * era, yoe % 100);
    DivisionUnique(y, 400, era, yoe);
  }

  // ---- The year of an era ----

  // Both bounds with the quotients as unknowns, one century at a time.
  lemma EraYearLowerBound(doe: int, a: int, b: int, y: int, u: int, v: int)
    requires 0 <= doe < 146096
    requires 1460 * a <= doe < 1460 * a + 1460 && 36524 * b <= doe < 36524 * b + 36524
    requires 365 * y <= doe - a + b < 365 * y + 365
    requires 4 * u <= y < 4 * u + 4 && 100 * v <= y < 100 * v + 100
    ensures 0 <= y < 400 && 365 * y + u - v <= doe
  {
    if b == 0 { assert 0 <= v <= 1; }
    else if b == 1 { assert 1 <= v <= 2; }
    else if b == 2 { assert 2 <= v <= 3; }
    else { assert b == 3 && v == 3; }
  }

  lemma EraYearUpperBound(doe: int, a: int, b: int, y: int, u: int, v: int)
    requires 0 <= doe < 146096
    requires 1460 * a <= doe < 1460 * a + 1460 && 36524 * b <= doe < 36524 * b + 36524
    requires 365 * y - 365 <= doe - a + b < 365 * y
    requires 4 * u <= y < 4 * u + 4 && 100 * v <= y < 100 * v + 100
    ensures y < 400 ==> doe < 365 * y + u - v
  {
    if b == 0 { assert v <= 1; }
    else if b == 1 { assert 1 <= v <= 2; }
    else if b == 2 { assert 2 <= v <= 3; }
    else { assert b == 3 && 3 <= v <= 4; }
  }

  lemma EraYearRange(doe: nat)
    requires doe < 146097
    ensures 0 <= YearOfEra(doe) < 400 && YearStart(YearOfEra(doe)) <= doe
  {
    var y := YearOfEra(doe);
    if doe == 146096 {
      assert y == 399;
    } else {
      EraYearLowerBound(doe, doe / 1460, doe / 36524, y, y / 4, y / 100);
    }
  }

  lemma EraYearUpper(doe: nat)
    requires doe < 146097
    ensures YearOfEra(doe) >= 0 && doe < YearStart(YearOfEra(doe) + 1)
  {
    EraYearRange(doe);
    var y := YearOfEra(doe) + 1;
    if doe == 146096 {
      assert y == 400;
    } else if y < 400 {
      EraYearUpperBound(doe, doe / 1460, doe / 36524, y, y / 4, y / 100);
    }
  }

  lemma DayOfYearRange(doe: nat)
    requires doe < 146097
    ensures var yoe := YearOfEra(doe);
            && 0 <= yoe < 400
            && 0 <= doe - (365 * yoe + yoe / 4 - yoe / 100) < MarchYearLength(yoe)
  {
    EraYearRange(doe);
    EraYearUpper(doe);
    YearStartStep(YearOfEra(doe));
  }

  // ---- Months of a year that begins in March ----

  lemma MonthRange(doy: int)
    requires 0 <= doy < 366
    ensures 0 <= MonthOfDay(doy) <= 11
    ensures MonthStart(MonthOfDay(doy)) <= doy < MonthStart(MonthOfDay(doy) + 1)
  {
  }

  lemma MonthLength(mp: int, year: nat)
    requires 0 <= mp <= 11
    ensures mp < 11 ==> MonthStart(mp + 1) - MonthStart(mp) == DaysInMonth(year, CivilMonth(mp))
    ensures mp == 11 ==> MonthStart(mp) == 337
  {
    if mp <= 5 {
      assert mp == 0 || mp == 1 || mp == 2 || mp == 3 || mp == 4 || mp == 5;
    } else {
      assert mp == 6 || mp == 7 || mp == 8 || mp == 9 || mp == 10 || mp == 11;
    }
  }

  // A day within month mp is found again.
  lemma MonthSplitUnique(mp: int, day: int)
    requires 0 <= mp <= 11 && 1 <= day
    requires MonthStart(mp) + day - 1 < (if mp < 11 then MonthStart(mp + 1) else 366)
    ensures MonthOfDay(MonthStart(mp) + day - 1) == mp
  {
  }

  // ---- A valid date in March-year coordinates ----

  function MarchYear(d: Date): nat
    requires ValidDate(d)
  {
    if d.month <= 2 then d.year - 1 else d.year
  }

  function MarchMonth(d: Date): nat
    requires ValidDate(d)
  {
    if d.month <= 2 then d.month + 9 else d.month - 3
  }

  function MarchDay(d: Date): nat
    requires ValidDate(d)
  {
    MonthStart(MarchMonth(d)) + d.day - 1
  }

  lemma MarchCoordinates(d: Date)
    requires ValidDate(d)
    ensures DayFromCivil(d) == YearStart(MarchYear(d)) + MarchDay(d)
    ensures MarchDay(d) < MarchYearLength(MarchYear(d))
    ensures MarchMonth(d) < 11 ==> MarchDay(d) < MonthStart(MarchMonth(d) + 1)
    ensures CivilMonth(MarchMonth(d)) == d.month
  {
    var y := MarchYear(d);
    EraPeriod(y / 400, y - y / 400 * 400);
    MonthLength(MarchMonth(d), d.year);
    if MarchMonth(d) < 10 { LaterMonthStarts(MarchMonth(d)); }
  }

  lemma LaterMonthStarts(mp: int)
    requires 0 <= mp <= 10
    ensures MonthStart(mp + 1) <= 337
  {
  }

  // ---- Round trips ----

  // Day z counted from 0000-03-01 is the given day of the given year.
  predicate Splits(z: int, yd: (nat, nat)) { YearStart(yd.0) + yd.1 == z && yd.1 < MarchYearLength(yd.0) }

  lemma EraDayExact(era: nat, doe: nat, z: int)
    requires doe < 146097 && z == era * 146097 + doe
    ensures Splits(z, EraDay(era, doe))
  {
    DayOfYearRange(doe);
    EraPeriod(era, YearOfEra(doe));
    LeapInEra(era, YearOfEra(doe));
  }

  lemma YearAndDayExact(z: nat)
    ensures Splits(z, YearAndDay(z))
  {
    DivisionExact(z, 146097);
    EraDayExact(z / 146097, z - z / 146097 * 146097, z);
  }

  lemma CivilDateExact(y: nat, doy: nat)
    requires doy < MarchYearLength(y)
    ensures ValidDate(CivilDate(y, doy))
    ensures MarchYear(CivilDate(y, doy)) == y && MarchDay(CivilDate(y, doy)) == doy
  {
    MonthRange(doy);
    MonthLength(MonthOfDay(doy), CivilDate(y, doy).year);
  }

  /** Every day count is a valid date that counts back to it. */
  lemma DayRoundTrip(z: nat)
    ensures ValidDate(CivilFromDay(z)) && DayFromCivil(CivilFromDay(z)) == z
  {
    var (y, doy) := YearAndDay(z);
    YearAndDayExact(z);
    CivilDateExact(y, doy);
    MarchCoordinates(CivilDate(y, doy));
  }

  lemma LeapInEra(era: nat, yoe: nat)
    ensures MarchYearLength(yoe + era * 400) == MarchYearLength(yoe)
  {
    var x := yoe + 1;
    DivisionUnique(x + era * 400, 4, x / 4 + 100 * era, x % 4);
    DivisionUnique(x + era * 400, 100, x / 100 + 4 * era, x % 100);
    DivisionUnique(x + era * 400, 400, x / 400 + era, x % 400);
  }

  // Two valid dates with the same day count are the same date.
  lemma DayCountInjective(d: Date, d': Date)
    requires ValidDate(d) && ValidDate(d') && DayFromCivil(d) == DayFromCivil(d')
    ensures d == d'
  {
    MarchCoordinates(d);
    MarchCoordinates(d');
    YearSplitUnique(MarchYear(d), MarchDay(d), MarchYear(d'), MarchDay(d'));
    MonthSplitUnique(MarchMonth(d), d.day);
    MonthSplitUnique(MarchMonth(d'), d'.day);
  }

  /** Every valid date is found again from its day count. */
  lemma DateRoundTrip(date: Date)
    requires ValidDate(date)
    ensures CivilFromDay(DayFromCivil(date)) == date
  {
    DayRoundTrip(DayFromCivil(date));
    DayCountInjective(CivilFromDay(DayFromCivil(date)), date);
  }

  // The last day of a month is followed by the first of the next.
  lemma MonthEndCounts(d: Date)
    requires ValidDate(d) && d.day == DaysInMonth(d.year, d.month)
    ensures ValidDate(NextDay(d)) && DayFromCivil(NextDay(d)) == DayFromCivil(d) + 1
  {
    MarchCoordinates(d);
    MarchCoordinates(NextDay(d));
    MonthLength(MarchMonth(d), d.year);
    if d.month == 2 {
      YearStartStep(MarchYear(d));
      assert MarchDay(NextDay(d)) == 0 && MarchYear(NextDay(d)) == MarchYear(d) + 1;
    } else {
      assert MarchMonth(NextDay(d)) == MarchMonth(d) + 1 && MarchYear(NextDay(d)) == MarchYear(d);
    }
  }

  lemma NextDayCounts(d: Date)
    requires ValidDate(d)
    ensures ValidDate(NextDay(d)) && DayFromCivil(NextDay(d)) == DayFromCivil(d) + 1
  {
    if d.day == DaysInMonth(d.year, d.month) {
      MonthEndCounts(d);
    }
  }

  lemma CivilStep(z: nat)
    ensures ValidDate(CivilFromDay(z))
    ensures CivilFromDay(z + 1) == NextDay(CivilFromDay(z))
  {
    DayRoundTrip(z);
    DayRoundTrip(z + 1);
    NextDayCounts(CivilFromDay(z));
    DayCountInjective(CivilFromDay(z + 1), NextDay(CivilFromDay(z)));
  }

  // Stepping a day at a time counts days.
  lemma {:induction false} SteppedDayCount(days: nat)
    ensures ValidDate(DateAfter(days)) && DayFromCivil(DateAfter(days)) == days + 719468
  {
    if days == 0 {
    } else {
      SteppedDayCount(days - 1);
      NextDayCounts(DateAfter(days - 1));
    }
  }

  /**
   The closed form is the calendar: for every timestamp it gives the date reached by stepping one
   day at a time from 1970-01-01.
   */
  lemma ClosedFormIsCalendar(timestamp: nat)
    ensures TimestampToYmd(timestamp) == DateAfter(timestamp / 86400)
    ensures ValidDate(TimestampToYmd(timestamp))
  {
    SteppedDayCount(timestamp / 86400);
    DateRoundTrip(DateAfter(timestamp / 86400));
  }
}
