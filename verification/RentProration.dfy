/** First-month rent, prorated to the second (contracts/leaseflow_contracts/src/proration.rs). */
module RentProration {
  import opened Arith
  import opened Calendar

  // i128::saturating_mul
  function SaturatingMul(a: I128, b: nat): I128 {
    if a * b > I128_MAX then I128_MAX
    else if a * b < -I128_MAX - 1 then -I128_MAX - 1
    else a * b
  }

  function MonthSecs(start: nat): nat {
    var d := TimestampToYmd(start);
    DaysInMonth(d.year, d.month) * 86400
  }

  function ElapsedSecs(start: nat): nat {
    ClosedFormIsCalendar(start);
    (TimestampToYmd(start).day - 1) * 86400 + start % 86400
  }

  function OccupiedSecs(start: nat): nat { SatSub(MonthSecs(start), ElapsedSecs(start)) }

  // calculate_first_month_rent
  function FirstMonthRent(start: U64, rent: I128): int {
    TruncDiv(SaturatingMul(rent, OccupiedSecs(start)), MonthSecs(start))
  }

  // ---- The seconds, in calendar terms ----

  function NextMonth(d: Date): Date {
    if d.month < 12 then Date(d.year, d.month + 1, 1) else Date(d.year + 1, 1, 1)
  }

  lemma DayOfMonthShift(d: Date, k: nat)
    requires ValidDate(d) && ValidDate(d.(day := k))
    ensures DayFromCivil(d.(day := k)) == DayFromCivil(d) - d.day + k
  {
  }

  lemma MonthBounds(d: Date)
    requires ValidDate(d)
    ensures ValidDate(d.(day := 1)) && ValidDate(NextMonth(d))
    ensures DayFromCivil(d.(day := 1)) == DayFromCivil(d) - d.day + 1
    ensures DayFromCivil(NextMonth(d)) == DayFromCivil(d) - d.day + 1 + DaysInMonth(d.year, d.month)
  {
    DayOfMonthShift(d, 1);
    LastDay(d);
    DayOfMonthShift(d, DaysInMonth(d.year, d.month));
    MonthEndCounts(d.(day := DaysInMonth(d.year, d.month)));
  }

  lemma LastDay(d: Date)
    requires ValidDate(d)
    ensures var last := d.(day := DaysInMonth(d.year, d.month));
            ValidDate(last) && ValidDate(NextMonth(d)) && NextDay(last) == NextMonth(d)
  {
  }

  // A month that reaches 1970 does not begin before it.
  lemma EpochStartsMonth(d: Date)
    requires ValidDate(d) && DayFromCivil(d) >= 719468
    ensures ValidDate(d.(day := 1)) && DayFromCivil(d.(day := 1)) >= 719468
  {
    DayOfMonthShift(d, 1);
    var gap := DayFromCivil(d) - 719468;
    if gap < d.day - 1 {
      DayOfMonthShift(d, d.day - gap);
      SteppedDayCount(0);
      DayCountInjective(d.(day := d.day - gap), DateAfter(0));
      assert false;
    }
  }

  lemma TimestampDay(start: nat)
    ensures ValidDate(TimestampToYmd(start))
    ensures DayFromCivil(TimestampToYmd(start)) == start / 86400 + 719468
  {
    DayRoundTrip(start / 86400 + 719468);
  }

  /**
   Elapsed and occupied seconds split the calendar month at the start, so the saturating subtraction
   never saturates.
   */
  lemma OccupiedExact(start: nat)
    ensures ElapsedSecs(start) < MonthSecs(start)
    ensures var d := TimestampToYmd(start);
            && ValidDate(d) && ValidDate(d.(day := 1)) && ValidDate(NextMonth(d))
            && start + OccupiedSecs(start) == YmdToTimestamp(NextMonth(d))
            && start == YmdToTimestamp(d.(day := 1)) + ElapsedSecs(start)
  {
    var d := TimestampToYmd(start);
    TimestampDay(start);
    MonthBounds(d);
    EpochStartsMonth(d);
  }

  // ---- The rent ----

  /**
   Between nothing and the full rent, saturated or not; the full rent is due exactly from the first
   second of a month, when the product fits.
   */
  lemma FirstMonthRentExact(start: U64, rent: I128)
    requires rent >= 0
    ensures 0 <= FirstMonthRent(start, rent) <= rent
    ensures rent > 0 ==>
              (FirstMonthRent(start, rent) == rent <==>
               ElapsedSecs(start) == 0 && rent * MonthSecs(start) <= I128_MAX)
  {
    OccupiedExact(start);
    RentQuotient(rent, OccupiedSecs(start), MonthSecs(start));
  }

  lemma RentQuotient(rent: I128, occupied: nat, total: nat)
    requires rent >= 0 && 0 < occupied <= total
    ensures var r := TruncDiv(SaturatingMul(rent, occupied), total);
            && 0 <= r <= rent
            && (rent > 0 ==> (r == rent <==> occupied == total && rent * total <= I128_MAX))
  {
    var product := rent * occupied;
    var full := rent * total;
    ScaleMonotone(rent, 0, occupied);
    ScaleMonotone(rent, occupied, total);
    ScaleStrict(rent, occupied, total);
    var capped := SaturatingMul(rent, occupied);
    QuotientBelow(capped, total, rent + 1);
    DivMonotone(0, capped, total);
    if capped == full {
      DivisionUnique(full, total, rent, 0);
    } else {
      QuotientBelow(capped, total, rent);
    }
  }

  // Magnitude of a product that saturates at either end of 128 bits.
  function Capped(rent: I128, secs: nat): int {
    if rent >= 0 then Min(rent * secs, I128_MAX) else Min(-(rent * secs), I128_MAX + 1)
  }

  // r is rent * secs / total, rounded toward zero.
  predicate Prorates(r: int, rent: I128, secs: nat, total: nat) {
    IsFloor(if rent >= 0 then r else -r, Capped(rent, secs), total)
  }

  lemma QuotientExact(rent: I128, secs: nat, total: nat)
    requires total > 0
    ensures Prorates(TruncDiv(SaturatingMul(rent, secs), total), rent, secs, total)
  {
    if rent >= 0 {
      ScaleMonotone(rent, 0, secs);
    } else {
      ScaleMonotone(-(rent as int), 0, secs);
    }
    var capped: int := SaturatingMul(rent, secs);
    QuotientBounds(capped, total);
    QuotientBounds(-capped, total);
  }

  lemma MonthSpan(start: nat)
    ensures var d := TimestampToYmd(start);
            && ValidDate(d) && ValidDate(d.(day := 1)) && ValidDate(NextMonth(d))
            && YmdToTimestamp(NextMonth(d)) - start == OccupiedSecs(start)
            && YmdToTimestamp(NextMonth(d)) - YmdToTimestamp(d.(day := 1)) == MonthSecs(start)
            && 0 < OccupiedSecs(start) <= MonthSecs(start)
  {
    OccupiedExact(start);
  }

  /**
   The rent itself, of either sign: the full rent times the seconds from the start to the next month,
   over the seconds of the calendar month, rounded toward zero; a product beyond 128 bits counts as the
   outermost value.
   */
  lemma FirstMonthRentIs(start: U64, rent: I128)
    ensures var d := TimestampToYmd(start);
            && ValidDate(d) && ValidDate(d.(day := 1)) && ValidDate(NextMonth(d))
            && var occupied := YmdToTimestamp(NextMonth(d)) - start;
               var month := YmdToTimestamp(NextMonth(d)) - YmdToTimestamp(d.(day := 1));
               0 < occupied <= month && Prorates(FirstMonthRent(start, rent), rent, occupied, month)
  {
    MonthSpan(start);
    QuotientExact(rent, OccupiedSecs(start), MonthSecs(start));
  }

  /** A later start in the same month never costs more. */
  lemma LaterStartCostsNoMore(start: U64, later: U64, rent: I128)
    requires rent >= 0 && start <= later
    requires TimestampToYmd(start).year == TimestampToYmd(later).year
    requires TimestampToYmd(start).month == TimestampToYmd(later).month
    ensures FirstMonthRent(later, rent) <= FirstMonthRent(start, rent)
  {
    OccupiedExact(start);
    OccupiedExact(later);
    assert OccupiedSecs(later) <= OccupiedSecs(start);
    RentMonotone(rent, OccupiedSecs(later), OccupiedSecs(start), MonthSecs(start));
  }

  lemma RentMonotone(rent: I128, less: nat, more: nat, total: nat)
    requires rent >= 0 && less <= more && total > 0
    ensures TruncDiv(SaturatingMul(rent, less), total) <= TruncDiv(SaturatingMul(rent, more), total)
  {
    ScaleMonotone(rent, 0, less);
    ScaleMonotone(rent, less, more);
    DivMonotone(SaturatingMul(rent, less), SaturatingMul(rent, more), total);
  }
}
