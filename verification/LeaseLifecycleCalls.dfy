/**
 What each entry point of the lifecycle contract (contracts/leaseflow/src/lib.rs) answers and changes,
 in the caller's terms: when it is accepted, which error it gives, and every field it leaves behind.
 */
module LeaseLifecycleCalls {
  import opened Arith
  import opened LeaseLifecycle

  // At most the lease id differs.
  predicate OnlyLease(d: Data, d': Data, id: nat) {
    && d'.leases.Keys == d.leases.Keys && d'.nextId == d.nextId
    && forall x | x in d.leases && x != id :: d'.leases[x] == d.leases[x]
  }

  // ---- Creation ----

  // The peg, if there is one, has a price target, a maximum age and a limit.
  predicate PegComplete(peg: Option<FiatPeg>) {
    peg.Some? ==> peg.value.targetUsd > 0 && peg.value.staleness > 0 && peg.value.volatility > 0
  }

  // A pending lease that carries the terms asked for and no history.
  predicate Carries(l: Lease, id: nat, t: Terms) {
    && l.leaseId == id && l.lessor == t.lessor && l.lessee == t.lessee && l.rent == t.rent && l.deposit == t.deposit
    && l.startDate == t.startDate && l.endDate == t.endDate && l.maxGrace == t.maxGrace
    && l.lateFeeRate == t.lateFeeRate && l.peg == t.peg
    && l.state == Pending && l.dunningStart == None && l.outstanding == 0 && l.lateFees == 0 && l.lastPayment == 0
    && !l.arrearsProcessed && l.totalPaid == 0 && l.lastPrice == None && l.lastPriceTime == None
  }

  /**
   Creation is decided by the terms and the id counter alone, and adds one lease, which carries them;
   its initial rent is the prorated one exactly when the start has passed and that could be computed.
   */
  lemma CreationExact(d: Data, now: U64, t: Terms, prorated: Option<I64>)
    ensures var r := CreateLease(d, now, t, prorated);
            var legal := t.rent > 0 && t.deposit > 0 && t.startDate < t.endDate;
            && (r.Ok? <==> legal && PegComplete(t.peg) && FitsU64(d.nextId + 1))
            && (r == Err(InvalidAmount) <==> !legal)
            && (r == Err(InvalidFiatPegConfig) <==> legal && !PegComplete(t.peg))
            && (r.Ok? ==>
                  && r.value.leases.Keys == d.leases.Keys + {d.nextId as nat} && r.value.nextId == d.nextId + 1
                  && (forall x | x in d.leases && x != d.nextId :: r.value.leases[x] == d.leases[x])
                  && Carries(r.value.leases[d.nextId], d.nextId, t)
                  && (now > t.startDate && prorated.Some? ==>
                        r.value.leases[d.nextId].proratedInitialRent == prorated.value)
                  && (now <= t.startDate || prorated.None? ==>
                        r.value.leases[d.nextId].proratedInitialRent == t.rent)
                  && r.value.vault == d.vault && r.value.credit == d.credit)
  {
  }

  // ---- Activation ----

  /** Only the lessee can activate, only once, and the deposit is locked; the payment clock starts. */
  lemma ActivationExact(d: Data, now: U64, id: nat, lessee: Address)
    ensures var r := ActivateLease(d, now, id, lessee);
            && (r == Err(LeaseNotFound) <==> id !in d.leases)
            && (id in d.leases ==>
                  var l := d.leases[id];
                  && (r == Err(Unauthorized) <==> lessee != l.lessee)
                  && (r == Err(LeaseAlreadyActive) <==> lessee == l.lessee && l.state != Pending)
                  && (r.Ok? <==>
                      && lessee == l.lessee && l.state == Pending
                      && FitsI64(d.vault.totalLocked + l.deposit) && FitsI64(d.vault.available + l.deposit))
                  && (r.Ok? ==>
                        && OnlyLease(d, r.value, id) && r.value.credit == d.credit
                        && r.value.leases[id].state == Active && r.value.leases[id].lastPayment == now
                        && r.value.leases[id] == l.(state := Active, lastPayment := now)
                        && r.value.vault.totalLocked - d.vault.totalLocked == l.deposit
                        && r.value.vault.available - d.vault.available == l.deposit
                        && r.value.vault.treasury == d.vault.treasury))
  {
  }

  // ---- Payments ----

  // What a payment has to cover: the rent, in grace with the late fee.
  function Due(l: Lease): int { if l.state == GracePeriod then Max(l.rent, l.rent + l.lateFees) else l.rent }

  /** A payment that covers what is due clears it; the total paid grows by the payment. */
  lemma PaymentDecided(d: Data, now: U64, id: nat, amount: I64)
    requires id in d.leases
    ensures var l, r := d.leases[id], ProcessRentPayment(d, now, id, amount);
            var payable := l.state == Active || l.state == GracePeriod;
            var sums := l.state == GracePeriod ==> FitsI64(l.rent + l.lateFees);
            && (r == Err(LeaseNotActive) <==> amount >= l.rent && !payable)
            && (sums ==> (r == Err(InsufficientRentFunds) <==> amount < Due(l)))
            && (r.Ok? <==> payable && sums && amount >= Due(l) && FitsI64(l.totalPaid + amount))
            && (payable && amount >= Due(l) && !(sums && FitsI64(l.totalPaid + amount)) ==>
                  r == Err(ArithmeticOverflow))
            && (r.Ok? ==>
                  && OnlyLease(d, r.value, id) && r.value.vault == d.vault && r.value.credit == d.credit
                  && r.value.leases[id] ==
                     l.(state := Active, outstanding := 0, lateFees := 0, lastPayment := now,
                        dunningStart := if l.state == GracePeriod then None else l.dunningStart,
                        totalPaid := l.totalPaid + amount))
  {
  }

  // ---- Missed payments ----

  // rate ten-thousandths of the rent, rounded down; a zero fee for a zero rate.
  lemma LateFeeExact(rate: U32, base: I64)
    ensures LateFee(rate, base).Ok? ==> base >= 0 && IsFloor(LateFee(rate, base).value, base * rate, 10000)
    ensures LateFee(rate, base).Ok? <==> base >= 0 && base * rate < 10000 * 0x8000_0000_0000_0000
    ensures LateFee(rate, base).Err? ==> LateFee(rate, base).error == LateFeeCalculationError
  {
    if base >= 0 {
      ScaleMonotone(base, 0, rate);
      QuotientBounds(base * rate, 10000);
    }
  }

  /** A missed payment on an active lease makes the rent due, with its fee, from now on. */
  lemma MissedPaymentExact(d: Data, now: U64, id: nat)
    ensures var r := HandleRentPaymentFailure(d, now, id);
            && (r == Err(LeaseNotFound) <==> id !in d.leases)
            && (id in d.leases ==>
                  var l := d.leases[id];
                  && (r == Err(InvalidStateTransition) <==> l.state != Active)
                  && (r.Ok? <==>
                      && l.state == Active && l.rent >= 0 && l.rent * l.lateFeeRate < 10000 * 0x8000_0000_0000_0000
                      && FitsU64(now + l.maxGrace))
                  && (r == Err(ArithmeticOverflow) ==> !FitsU64(now + l.maxGrace))
                  && (r.Ok? ==>
                        var l' := r.value.leases[id];
                        && OnlyLease(d, r.value, id) && r.value.vault == d.vault && r.value.credit == d.credit
                        && l'.outstanding == l.rent && IsFloor(l'.lateFees, l.rent * l.lateFeeRate, 10000)
                        && l' == l.(state := GracePeriod, dunningStart := Some(now), outstanding := l'.outstanding,
                                    lateFees := l'.lateFees)))
  {
    if id in d.leases {
      LateFeeExact(d.leases[id].lateFeeRate, d.leases[id].rent);
    }
  }

  // ---- Credit records ----

  /** One default more, at this time, for this debt and lease; nobody else's record changes. */
  lemma CreditUpdateExact(credit: map<Address, CreditRecord>, now: U64, lessee: Address, debt: I64, id: nat)
    ensures var r := UpdateCredit(credit, now, lessee, debt, id);
            var before := RecordOf(credit, lessee);
            && (r.Ok? <==> FitsI64(before.totalDebt + debt) && FitsU32(before.defaultCount + 1))
            && (r.Ok? ==>
                  var after := RecordOf(r.value, lessee);
                  && r.value.Keys == credit.Keys + {lessee}
                  && (forall a: Address | a != lessee :: RecordOf(r.value, a) == RecordOf(credit, a))
                  && after.totalDebt - before.totalDebt == debt && after.defaultCount - before.defaultCount == 1
                  && after.lastDefault == now && after.lessee == before.lessee && id in after.leaseIds
                  && (if id in before.leaseIds then after.leaseIds == before.leaseIds
                      else after.leaseIds == before.leaseIds + [id]))
    ensures lessee !in credit ==>
              RecordOf(credit, lessee) == CreditRecord(lessee, 0, 0, 0, [])
    ensures UpdateCredit(credit, now, lessee, debt, id).Err? ==>
              UpdateCredit(credit, now, lessee, debt, id) == Err(ArithmeticOverflow)
  {
  }

  /**
   The deduction on its own, from any state: it takes the arrears, or the deposit if that is less, from
   the available balance to the treasury, and books the rest as the lessee's debt.
   */
  lemma ArrearsExact(d: Data, now: U64, id: nat)
    requires id in d.leases
    ensures var l, r := d.leases[id], ExecuteArrearsDeduction(d, now, id);
            var arrears := l.outstanding + l.lateFees;
            var ready := l.state == EvictionPending && !l.arrearsProcessed && l.dunningStart.Some?;
            && (r == Err(ArrearsAlreadyProcessed) <==> l.state == EvictionPending && l.arrearsProcessed)
            && (r == Err(InvalidStateTransition) <==>
                l.state != EvictionPending || (!l.arrearsProcessed && l.dunningStart.None?))
            && (ready && !FitsI64(arrears) ==> r == Err(ArithmeticOverflow))
            && (ready && FitsI64(arrears) ==> (r == Err(InvalidAmount) <==> arrears <= 0 || l.deposit <= 0))
            && (ready && FitsI64(arrears) && arrears > 0 && l.deposit > 0 ==> Deducted(d, now, l, id, arrears, r))
  {
  }

  // Of the arrears, the deposit covers what it can, from the available balance, and the rest is owed.
  predicate Deducted(d: Data, now: U64, l: Lease, id: nat, arrears: int, r: Result<Data, Error>)
    requires id in d.leases && l.deposit > 0 && 0 < arrears && FitsI64(arrears)
  {
    var taken := Min(arrears, l.deposit);
    var moves := FitsI64(d.vault.available - taken) && FitsI64(d.vault.treasury + taken);
    var books := arrears > taken ==> UpdateCredit(d.credit, now, l.lessee, arrears - taken, id).Ok?;
    && (r == Err(EscrowVaultUnderflow) <==> d.vault.available < taken)
    && (r.Ok? <==> taken <= d.vault.available && moves && books)
    && (r.Err? ==> r.error == if d.vault.available < taken then EscrowVaultUnderflow else ArithmeticOverflow)
    && (r.Ok? ==>
          && OnlyLease(d, r.value, id) && r.value.leases[id] == l.(arrearsProcessed := true)
          && r.value.vault == Vault(d.vault.totalLocked, d.vault.available - taken, d.vault.treasury + taken)
          && (if arrears == taken then r.value.credit == d.credit
              else UpdateCredit(d.credit, now, l.lessee, arrears - taken, id) == Ok(r.value.credit)))
  }

  // ---- Expiry ----

  // The grace period has not passed, and its end fits 64 bits.
  predicate InGrace(l: Lease, now: U64) {
    l.dunningStart.Some? && now <= l.dunningStart.value + l.maxGrace && FitsU64(l.dunningStart.value + l.maxGrace)
  }

  /** Outside an expired grace period the check does nothing; only the lessor can force it. */
  lemma ExpiryIdle(d: Data, now: U64, id: nat, caller: Address)
    ensures var r := CheckGracePeriodExpiry(d, now, id);
            && (r == Err(LeaseNotFound) <==> id !in d.leases)
            && (id in d.leases && (d.leases[id].state != GracePeriod || InGrace(d.leases[id], now)) ==> r == Ok(d))
    ensures var r := TriggerGracePeriodCheck(d, now, id, caller);
            && (r == Err(LeaseNotFound) <==> id !in d.leases)
            && (r == Err(Unauthorized) <==> id in d.leases && caller != d.leases[id].lessor)
            && (id in d.leases && caller == d.leases[id].lessor ==> r == CheckGracePeriodExpiry(d, now, id))
  {
  }

  // ---- Termination ----

  // Terminating within a day of the last payment costs a tenth of a positive refund, rounded down.
  predicate Hasty(l: Lease, now: U64, refund: int) { now < l.lastPayment + 86400 && refund > 0 }

  /** Nothing can be done to a lease that does not exist. */
  lemma NoSuchLease(d: Data, c: Call)
    requires !c.op.Create? && c.op.id !in d.leases
    ensures Step(d, c) == Err(LeaseNotFound)
  {
  }

  /** Either party closes an active lease; the payout is the refund, less the penalty when hasty. */
  lemma TerminationExact(d: Data, now: U64, id: nat, caller: Address, refund: Option<I64>)
    ensures var r := TerminateLease(d, now, id, caller, refund);
            && (r == Err(LeaseNotFound) <==> id !in d.leases)
            && (id in d.leases ==>
                  var l := d.leases[id];
                  var due: int := if refund.Some? then refund.value else 0;
                  && (r == Err(Unauthorized) <==> caller != l.lessor && caller != l.lessee)
                  && (r.Ok? <==> (caller == l.lessor || caller == l.lessee) && l.state == Active)
                  && (r == Err(LeaseNotActive) <==> (caller == l.lessor || caller == l.lessee) && l.state != Active)
                  && (r.Ok? ==>
                        && OnlyLease(d, r.value.0, id)
                        && r.value.0.vault == d.vault && r.value.0.credit == d.credit
                        && r.value.0.leases[id] == l.(state := Closed)
                        && (if Hasty(l, now, due) then IsFloor(due - r.value.1, due, 10) else r.value.1 == due)))
  {
  }

  // ---- Oracle-priced payments ----

  // The change of price times 10000 stays below limit + 1 times the stored price.
  predicate WithinLimit(price: int, last: int, limit: int) { Distance(price, last) * 10000 < last * (limit + 1) }

  predicate Fresh(p: PriceData, peg: FiatPeg, now: U64) {
    now <= p.timestamp + peg.staleness && now <= p.timestamp + 3600
  }

  /** A price is taken exactly when it is fresh and, against a recent stored price, within the limit. */
  lemma OraclePriceExact(lease: Lease, peg: FiatPeg, now: U64, feed: Option<PriceData>)
    ensures var r := GetOraclePrice(lease, peg, now, feed);
            && (r == Err(OracleCallFailed) <==> feed.None?)
            && (r == Err(OracleDataStale) <==> feed.Some? && !Fresh(feed.value, peg, now))
            && (r.Ok? ==> feed == Some(r.value))
            && (r.Ok? <==>
                && feed.Some? && Fresh(feed.value, peg, now)
                && (RecentPrice(lease, now) ==>
                      && WithinLimit(feed.value.price, lease.lastPrice.value, peg.volatility)
                      && FitsI128(Distance(feed.value.price, lease.lastPrice.value) * 10000)))
            && (feed.Some? && Fresh(feed.value, peg, now) && RecentPrice(lease, now) ==>
                  if FitsI128(Distance(feed.value.price, lease.lastPrice.value) * 10000)
                  then (r == Err(VolatilityCircuitBreaker) <==>
                        !WithinLimit(feed.value.price, lease.lastPrice.value, peg.volatility))
                  else r == Err(ArithmeticOverflow))
    ensures RecentPrice(lease, now) <==>
            && lease.lastPrice.Some? && lease.lastPriceTime.Some? && lease.lastPrice.value > 0
            && now <= lease.lastPriceTime.value + 3600
  {
    if feed.Some? && RecentPrice(lease, now) {
      QuotientBelow(Distance(feed.value.price, lease.lastPrice.value) * 10000, lease.lastPrice.value,
                    peg.volatility as int + 1);
    }
  }

  /**
   The rent at a positive price: the target in the oracle's decimals over the price, rounded down, when
   that is positive and fits 64 bits.
   */
  lemma PeggedRentExact(lease: Lease, now: U64, feed: Option<PriceData>)
    requires lease.peg.Some? && lease.peg.value.enabled && lease.peg.value.targetUsd > 0
    requires GetOraclePrice(lease, lease.peg.value, now, feed).Ok? && feed.value.price > 0
    ensures var r, p := FiatPeggedRent(lease, now, feed), feed.value;
            var usd := lease.peg.value.targetUsd * Pow10(p.decimals);
            && (r.Ok? <==>
                && FitsI128(Pow10(p.decimals)) && FitsI128(usd)
                && p.price <= usd < p.price * 0x8000_0000_0000_0000)
            && (r.Err? ==> r.error == if FitsI128(Pow10(p.decimals)) && FitsI128(usd) then InvalidAmount
                                      else ArithmeticOverflow)
            && (r.Ok? ==> IsFloor(r.value, usd, p.price))
  {
    var p := feed.value;
    var usd := lease.peg.value.targetUsd * Pow10(p.decimals);
    Pow10Positive(p.decimals);
    ScaleMonotone(lease.peg.value.targetUsd, 0, Pow10(p.decimals));
    QuotientBounds(usd, p.price);
    QuotientBelow(usd, p.price, 0x8000_0000_0000_0000);
    QuotientBelow(usd, p.price, 1);
    QuotientBelow(usd, p.price, 0);
  }

  lemma {:induction false} Pow10Positive(n: nat)
    ensures Pow10(n) > 0
    ensures Pow10(n + 1) == 10 * Pow10(n) && Pow10(0) == 1
  {
    if n == 0 {
    } else {
      Pow10Positive(n - 1);
    }
  }

  /** An oracle-priced payment records price, time and amount on an active, pegged lease, and nothing else. */
  lemma FiatPaymentExact(d: Data, now: U64, id: nat, feed: Option<PriceData>)
    ensures var r := ProcessFiatPeggedPayment(d, now, id, feed);
            && (r == Err(LeaseNotFound) <==> id !in d.leases)
            && (id in d.leases ==>
                  var l := d.leases[id];
                  && (r == Err(LeaseNotActive) <==> l.state != Active)
                  && (l.state == Active && (l.peg.None? || !l.peg.value.enabled) ==> r == Err(InvalidFiatPegConfig))
                  && (r.Ok? <==>
                      && l.state == Active && l.peg.Some? && l.peg.value.enabled
                      && GetOraclePrice(l, l.peg.value, now, feed).Ok? && FiatPeggedRent(l, now, feed).Ok?
                      && FitsI64(l.totalPaid + FiatPeggedRent(l, now, feed).value))
                  && (l.state == Active && l.peg.Some? && l.peg.value.enabled ==>
                        && (GetOraclePrice(l, l.peg.value, now, feed).Err? ==>
                              r == Err(GetOraclePrice(l, l.peg.value, now, feed).error))
                        && (r.Err? && FiatPeggedRent(l, now, feed).Ok? ==> r.error == ArithmeticOverflow))
                  && (r.Ok? ==>
                        var l' := r.value.leases[id];
                        && OnlyLease(d, r.value, id) && r.value.vault == d.vault && r.value.credit == d.credit
                        && feed.Some? && l'.lastPrice == Some(feed.value.price)
                        && l'.lastPriceTime == Some(feed.value.timestamp) && l'.lastPayment == now
                        && Ok(l'.totalPaid - l.totalPaid) == FiatPeggedRent(l, now, feed)
                        && l' == l.(lastPrice := l'.lastPrice, lastPriceTime := l'.lastPriceTime,
                                    lastPayment := l'.lastPayment, totalPaid := l'.totalPaid)))
  {
  }

  /** Without a peg, or with one that is off, the quoted rent is an error or the lease's own rent. */
  lemma UnpeggedRent(lease: Lease, now: U64, feed: Option<PriceData>)
    ensures lease.peg.None? ==> FiatPeggedRent(lease, now, feed) == Err(InvalidFiatPegConfig)
    ensures lease.peg.Some? && !lease.peg.value.enabled ==> FiatPeggedRent(lease, now, feed) == Ok(lease.rent)
  {
  }
}
