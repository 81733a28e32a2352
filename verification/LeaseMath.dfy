/** Calendar-based billing of crates/leaseflow_math/src/lib.rs. */
module LeaseMath {
  import opened Arith
  import opened Calendar
  import opened RentProration

  // ---- ymd_to_timestamp ----

  lemma YearAgainstEpoch(date: Date)
    requires ValidDate(date)
    ensures DayFromCivil(date) >= 719468 <==> date.year >= 1970
  {
    MarchCoordinates(date);
    assert YearStart(1969) == 719162 && YearStart(1970) == 719527;
    YearStartStep(MarchYear(date));
    if date.year >= 1970 {
      YearStartMonotone(if date.month <= 2 then 1969 else 1970, MarchYear(date));
    } else {
      YearStartMonotone(MarchYear(date), if date.month <= 2 then 1968 else 1969);
    }
  }

  /** A valid date survives the trip through a timestamp exactly from 1970 on; earlier ones clamp to 0. */
  lemma TimestampRoundTrip(date: Date)
    requires ValidDate(date)
    ensures TimestampToYmd(YmdToTimestamp(date)) == date <==> date.year >= 1970
    ensures date.year < 1970 ==> YmdToTimestamp(date) == 0
    ensures YmdToTimestamp(date) % 86400 == 0
  {
    var days := SatSub(DayFromCivil(date), 719468);
    assert days * 86400 / 86400 == days;
    YearAgainstEpoch(date);
    if date.year >= 1970 {
      DateRoundTrip(date);
    } else {
      ClosedFormIsCalendar(0);
    }
  }

  // ---- next_billing_date ----

  function MonthIndex(d: Date): int { 12 * d.year + d.month - 1 }

  function BillingDate(d: Date, n: nat): Date
    requires d.month >= 1
  {
    var months := d.month - 1 + n;
    var year, month := d.year + months / 12, months % 12 + 1;
    Date(year, month, Min(d.day, DaysInMonth(year, month)))
  }

  // None when the month counter or the timestamp overflows and the call aborts.
  function NextBillingDate(inception: U64, n: U32): Option<nat> {
    ClosedFormIsCalendar(inception);
    var d := TimestampToYmd(inception);
    if !FitsU32(d.month - 1 + n) then None
    else
      var t := YmdToTimestamp(BillingDate(d, n));
      if FitsU64(t) then Some(t) else None
  }

  // b is n months after d, on d's day of month or the last day of a shorter month.
  predicate BillsOn(d: Date, n: nat, b: Date) {
    MonthIndex(b) == MonthIndex(d) + n && b.day == Min(d.day, DaysInMonth(b.year, b.month))
  }

  lemma BillingDateValid(d: Date, n: nat)
    requires ValidDate(d) && d.year >= 1970
    ensures ValidDate(BillingDate(d, n)) && BillingDate(d, n).year >= 1970
    ensures BillsOn(d, n, BillingDate(d, n))
  {
  }

  lemma InceptionDate(inception: nat)
    ensures ValidDate(TimestampToYmd(inception)) && TimestampToYmd(inception).year >= 1970
  {
    TimestampDay(inception);
    YearAgainstEpoch(TimestampToYmd(inception));
  }

  /**
   The n-th billing date is midnight of the inception's day of month, or of the last day of a shorter
   month, exactly n months after the inception's month; there is none only when the month counter or
   the timestamp of that date overflows.
   */
  lemma BillingDateExact(inception: U64, n: U32)
    ensures var r := NextBillingDate(inception, n);
            r.Some? ==>
              r.value % 86400 == 0 && BillsOn(TimestampToYmd(inception), n, TimestampToYmd(r.value))
    ensures var d := TimestampToYmd(inception);
            forall b | ValidDate(b) && BillsOn(d, n, b) ::
              (NextBillingDate(inception, n).Some? <==> FitsU32(d.month - 1 + n) && FitsU64(YmdToTimestamp(b)))
  {
    var d := TimestampToYmd(inception);
    InceptionDate(inception);
    BillingDateValid(d, n);
    TimestampRoundTrip(BillingDate(d, n));
    forall b | ValidDate(b) && BillsOn(d, n, b) ensures b == BillingDate(d, n) {
      SameMonth(b, BillingDate(d, n));
    }
  }

  lemma {:induction false} MonthsInOrder(d: Date, d': Date)
    requires ValidDate(d) && ValidDate(d') && MonthIndex(d) < MonthIndex(d')
    ensures DayFromCivil(d) < DayFromCivil(d')
    decreases MonthIndex(d') - MonthIndex(d)
  {
    var next := NextMonth(d);
    MonthBounds(d);
    assert MonthIndex(next) == MonthIndex(d) + 1;
    if MonthIndex(next) < MonthIndex(d') {
      MonthsInOrder(next, d');
    } else {
      SameMonth(next, d');
      DayOfMonthShift(next, d'.day);
    }
  }

  lemma SameMonth(d: Date, d': Date)
    requires ValidDate(d) && ValidDate(d') && MonthIndex(d) == MonthIndex(d')
    ensures d.year == d'.year && d.month == d'.month
  {
  }

  /** Billing dates strictly increase, however far apart: no cycle is skipped into or repeated. */
  lemma BillingDatesIncrease(inception: U64, n: U32, n': U32)
    requires n < n' && NextBillingDate(inception, n).Some? && NextBillingDate(inception, n').Some?
    ensures NextBillingDate(inception, n).value < NextBillingDate(inception, n').value
  {
    var d := TimestampToYmd(inception);
    InceptionDate(inception);
    BillingDateValid(d, n);
    BillingDateValid(d, n');
    YearAgainstEpoch(BillingDate(d, n));
    MonthsInOrder(BillingDate(d, n), BillingDate(d, n'));
  }

  // ---- get_seconds_in_month ----

  // The year estimate counts itself among the leap years before it.
  function LeapShift(days: nat): nat { if IsLeapYear(1970 + days / 365) then 1 else 0 }

  function YearLength(year: nat): nat { if IsLeapYear(year) then 366 else 365 }

  function JanuaryFirst(year: nat): int
    requires year >= 1
  {
    YearStart(year - 1) + 306
  }

  lemma JanuaryFirstExact(year: nat)
    requires year >= 1
    ensures DayFromCivil(Date(year, 1, 1)) == JanuaryFirst(year)
    ensures JanuaryFirst(year + 1) == JanuaryFirst(year) + YearLength(year)
    ensures year <= 1970 ==> JanuaryFirst(year) <= 719468
  {
    MarchCoordinates(Date(year, 1, 1));
    YearStartStep(year - 1);
    if year <= 1970 { YearStartMonotone(year - 1, 1969); }
  }

  lemma EstimateExact(days: nat)
    ensures var y := 1970 + days / 365;
            var leaps := (y - 1968) / 4 - (y - 1900) / 100 + (y - 1600) / 400;
            JanuaryFirst(y) + days % 365 - leaps == days - LeapShift(days) + 719468
    ensures LeapShift(days) <= days
  {
    var y := 1970 + days / 365;
    YearStartStep(y - 1);
    assert (y - 1968) / 4 == y / 4 - 492 && (y - 1900) / 100 == y / 100 - 19 && (y - 1600) / 400 == y / 400 - 4;
  }

  // The civil date the loops end on.
  function EstimatedDate(timestamp: nat): Date {
    EstimateExact(timestamp / 86400);
    CivilFromDay(timestamp / 86400 - LeapShift(timestamp / 86400) + 719468)
  }

  // The year estimate and the two correcting loops.
  method FindYear(days: nat) returns (year: nat, remaining: int)
    ensures year >= 1 && 0 <= remaining < YearLength(year)
    ensures JanuaryFirst(year) + remaining == days - LeapShift(days) + 719468
  {
    year := 1970 + days / 365;
    var leaps := (year - 1968) / 4 - (year - 1900) / 100 + (year - 1600) / 400;
    remaining := days % 365 - leaps;
    EstimateExact(days);
    ghost var target := days - LeapShift(days) + 719468;
    while remaining < 0
      invariant year >= 1 && JanuaryFirst(year) + remaining == target
      decreases year
    {
      JanuaryFirstExact(year);
      year := year - 1;
      JanuaryFirstExact(year);
      remaining := remaining + YearLength(year);
    }
    while remaining >= YearLength(year)
      invariant year >= 1 && remaining >= 0 && JanuaryFirst(year) + remaining == target
      decreases remaining
    {
      JanuaryFirstExact(year);
      remaining := remaining - YearLength(year);
      year := year + 1;
    }
  }

  function MonthLengths(leap: bool): (s: seq<nat>)
    ensures |s| == 12
  {
    [31, if leap then 29 else 28, 31, 30, 31, 30, 31, 31, 30, 31, 30, 31]
  }

  lemma MonthLengthsExact(year: nat, month: nat)
    requires month < 12
    ensures MonthLengths(IsLeapYear(year))[month] == DaysInMonth(year, month + 1)
  {
  }

  // Days of a year before the given month.
  function DaysBefore(year: nat, month: nat): nat
    requires 1 <= month
  {
    if month == 1 then 0 else DaysBefore(year, month - 1) + DaysInMonth(year, month - 1)
  }

  lemma {:induction false} DaysBeforeExact(year: nat, month: nat)
    requires year >= 1 && 1 <= month <= 12
    ensures DayFromCivil(Date(year, month, 1)) == JanuaryFirst(year) + DaysBefore(year, month)
  {
    if month == 1 {
      JanuaryFirstExact(year);
    } else {
      DaysBeforeExact(year, month - 1);
      MonthBounds(Date(year, month - 1, 1));
    }
  }

  // A day of the year lies in some month: December is the last.
  lemma DecemberEnds(year: nat)
    requires year >= 1
    ensures DaysBefore(year, 12) + 31 == YearLength(year)
  {
    DaysBeforeExact(year, 12);
    MonthBounds(Date(year, 12, 1));
    JanuaryFirstExact(year);
    JanuaryFirstExact(year + 1);
  }

  lemma DayInMonth(year: nat, month: nat, day: nat)
    requires 1 <= month <= 12 && year >= 1 && day < DaysInMonth(year, month)
    ensures ValidDate(Date(year, month, day + 1))
    ensures DayFromCivil(Date(year, month, day + 1)) == JanuaryFirst(year) + DaysBefore(year, month) + day
  {
    DaysBeforeExact(year, month);
    DayOfMonthShift(Date(year, month, 1), day + 1);
  }

  // The loop over the table of month lengths.
  method FindMonth(year: nat, dayOfYear: nat) returns (month: nat, day: nat)
    requires year >= 1 && dayOfYear < YearLength(year)
    ensures month < 12 && ValidDate(Date(year, month + 1, day + 1))
    ensures DayFromCivil(Date(year, month + 1, day + 1)) == JanuaryFirst(year) + dayOfYear
  {
    var lengths := MonthLengths(IsLeapYear(year));
    month, day := 0, dayOfYear;
    MonthLengthsExact(year, 0);
    DecemberEnds(year);
    while day >= lengths[month]
      invariant month < 12 && lengths[month] == DaysInMonth(year, month + 1)
      invariant DaysBefore(year, month + 1) + day == dayOfYear
      decreases day
    {
      assert month < 11;
      day := day - lengths[month];
      month := month + 1;
      MonthLengthsExact(year, month);
    }
    DayInMonth(year, month + 1, day);
  }

  method SecondsInMonth(timestamp: nat) returns (secs: nat)
    requires 1970 + timestamp / 86400 / 365 < 0x8000_0000 // the year fits 32 bits
    ensures secs == 86400 * DaysInMonth(EstimatedDate(timestamp).year, EstimatedDate(timestamp).month)
  {
    var year, dayOfYear := FindYear(timestamp / 86400);
    var month, day := FindMonth(year, dayOfYear);
    DateRoundTrip(Date(year, month + 1, day + 1));
    MonthLengthsExact(year, month);
    secs := MonthLengths(IsLeapYear(year))[month] * 86400;
  }

  /**
   The result is the length of the timestamp's own month exactly outside this family: the first day
   of a month, other than January and August, when the estimated year is a leap year.
   */
  lemma SecondsInMonthExact(timestamp: nat)
    ensures var d, e := TimestampToYmd(timestamp), EstimatedDate(timestamp);
            DaysInMonth(e.year, e.month) == DaysInMonth(d.year, d.month) <==>
            !(IsLeapYear(1970 + timestamp / 86400 / 365) && d.day == 1 && d.month != 1 && d.month != 8)
  {
    var days := timestamp / 86400;
    EstimateExact(days);
    if LeapShift(days) == 1 {
      CivilStep(days - 1 + 719468);
      NeighbourMonths(EstimatedDate(timestamp));
    }
  }

  lemma NeighbourMonths(e: Date)
    requires ValidDate(e)
    ensures var d := NextDay(e);
            DaysInMonth(e.year, e.month) == DaysInMonth(d.year, d.month) <==>
            !(d.day == 1 && d.month != 1 && d.month != 8)
  {
  }

  // 1 February 2024 is given 31 days, not 29.
  lemma FebruaryMisread(timestamp: nat)
    requires timestamp / 86400 == 19754
    ensures TimestampToYmd(timestamp) == Date(2024, 2, 1) && EstimatedDate(timestamp) == Date(2024, 1, 31)
  {
    LeapYear2024(19754);
    CountDays(Date(2024, 2, 1), 2023, 337);
    CountDays(Date(2024, 1, 31), 2023, 336);
    FoundDate(timestamp, timestamp / 86400, Date(2024, 2, 1));
    MisreadDate(timestamp, timestamp / 86400, Date(2024, 1, 31));
  }

  lemma LeapYear2024(days: nat)
    requires days == 19754
    ensures LeapShift(days) == 1 && YearStart(2023) + 337 == days + 719468
  {
  }

  lemma CountDays(date: Date, y: nat, doy: nat)
    requires ValidDate(date) && MarchYear(date) == y && MarchDay(date) == doy
    ensures DayFromCivil(date) == YearStart(y) + doy
  {
    MarchCoordinates(date);
  }

  lemma FoundDate(timestamp: nat, days: nat, date: Date)
    requires days == timestamp / 86400 && ValidDate(date) && DayFromCivil(date) == days + 719468
    ensures TimestampToYmd(timestamp) == date
  {
    CivilOf(date, days + 719468);
  }

  lemma MisreadDate(timestamp: nat, days: nat, date: Date)
    requires days == timestamp / 86400 && LeapShift(days) == 1 && ValidDate(date)
    requires DayFromCivil(date) == days - 1 + 719468
    ensures EstimatedDate(timestamp) == date
  {
    CivilOf(date, days - 1 + 719468);
  }

  lemma CivilOf(date: Date, z: nat)
    requires ValidDate(date) && DayFromCivil(date) == z
    ensures CivilFromDay(z) == date
  {
    DateRoundTrip(date);
  }
}
