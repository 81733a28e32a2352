/**
 The lease lifecycle contract (contracts/leaseflow/src/lib.rs) on values: one function per entry
 point, from the stored contract data to the new data or an error. An error, and an arithmetic
 overflow, which aborts the host call, leave the stored data as it was.
 */
module LeaseLifecycle {
  import opened Arith

  datatype LeaseState = Pending | Active | GracePeriod | EvictionPending | Closed

  datatype Error =
    | InsufficientRentFunds
    | LeaseNotFound
    | InvalidStateTransition
    | Unauthorized
    | InvalidAmount
    | LeaseAlreadyActive
    | LeaseNotActive
    | LateFeeCalculationError
    | ArrearsAlreadyProcessed
    | EscrowVaultUnderflow
    | OracleDataStale
    | VolatilityCircuitBreaker
    | OracleCallFailed
    | InvalidFiatPegConfig
    | ArithmeticOverflow // the host aborts the call

  datatype FiatPeg = FiatPeg(enabled: bool, targetUsd: I64, staleness: U64, volatility: U32)

  datatype PriceData = PriceData(price: I128, timestamp: U64, decimals: U32)

  datatype Lease = Lease(
    leaseId: U64, lessor: Address, lessee: Address,
    rent: I64, deposit: I64, startDate: U64, endDate: U64,
    state: LeaseState, maxGrace: U64, lateFeeRate: U32,
    dunningStart: Option<U64>, outstanding: I64, lateFees: I64, lastPayment: U64,
    arrearsProcessed: bool, proratedInitialRent: I64, totalPaid: I64,
    peg: Option<FiatPeg>, lastPrice: Option<I128>, lastPriceTime: Option<U64>)

  datatype Vault = Vault(totalLocked: I64, available: I64, treasury: I64)

  datatype CreditRecord = CreditRecord(
    lessee: Address, totalDebt: I64, defaultCount: U32, lastDefault: U64, leaseIds: seq<nat>)

  datatype Data = Data(
    leases: map<nat, Lease>, nextId: U64, vault: Vault, credit: map<Address, CreditRecord>)

  // initialize
  const INITIAL: Data := Data(map[], 1, Vault(0, 0, 0), map[])

  // ---- Pure helpers ----

  function Find(d: Data, id: nat): Result<Lease, Error> {
    if id in d.leases then Ok(d.leases[id]) else Err(LeaseNotFound)
  }

  // The late fee in exact arithmetic; the source multiplies in 256 bits, where this cannot overflow.
  function ExactLateFee(rent: int, rate: nat): int { rent * rate / 10000 }

  // calculate_late_fee. A negative amount has no 256-bit unsigned form; no stored lease has one.
  function LateFee(rate: U32, base: I64): Result<I64, Error> {
    if base < 0 || !FitsI64(ExactLateFee(base, rate)) then Err(LateFeeCalculationError)
    else Ok(ExactLateFee(base, rate))
  }

  // calculate_deduction_amount
  function DeductionAmount(arrears: I64, deposit: I64): Result<I64, Error> {
    if arrears <= 0 || deposit <= 0 then Err(InvalidAmount)
    else if arrears >= deposit then Ok(deposit)
    else Ok(arrears)
  }

  function RecordOf(credit: map<Address, CreditRecord>, lessee: Address): CreditRecord {
    if lessee in credit then credit[lessee] else CreditRecord(lessee, 0, 0, 0, [])
  }

  // update_credit_record
  function UpdateCredit(credit: map<Address, CreditRecord>, now: U64, lessee: Address, debt: I64, id: nat)
    : Result<map<Address, CreditRecord>, Error>
  {
    var r := RecordOf(credit, lessee);
    if !FitsI64(r.totalDebt + debt) || !FitsU32(r.defaultCount + 1) then Err(ArithmeticOverflow)
    else
      var ids := if id in r.leaseIds then r.leaseIds else r.leaseIds + [id];
      Ok(credit[lessee := r.(totalDebt := r.totalDebt + debt, defaultCount := r.defaultCount + 1,
                             lastDefault := now, leaseIds := ids)])
  }

  // ---- Entry points ----

  datatype Terms = Terms(
    lessor: Address, lessee: Address, rent: I64, deposit: I64, startDate: U64, endDate: U64,
    maxGrace: U64, lateFeeRate: U32, peg: Option<FiatPeg>)

  // create_lease; prorated is what calculate_prorated_rent returns for (rent, now, endDate).
  function CreateLease(d: Data, now: U64, t: Terms, prorated: Option<I64>): Result<Data, Error> {
    if t.rent <= 0 || t.deposit <= 0 then Err(InvalidAmount)
    else if t.startDate >= t.endDate then Err(InvalidAmount)
    else if t.peg.Some? && (t.peg.value.targetUsd <= 0 || t.peg.value.staleness == 0
                            || t.peg.value.volatility == 0) then
      Err(InvalidFiatPegConfig)
    else if !FitsU64(d.nextId + 1) then Err(ArithmeticOverflow)
    else
      var initial := if now > t.startDate && prorated.Some? then prorated.value else t.rent;
      var lease := Lease(d.nextId, t.lessor, t.lessee, t.rent, t.deposit, t.startDate, t.endDate,
                         Pending, t.maxGrace, t.lateFeeRate, None, 0, 0, 0, false, initial, 0,
                         t.peg, None, None);
      Ok(d.(leases := d.leases[d.nextId := lease], nextId := d.nextId + 1))
  }

  // activate_lease; the unbound deposit_amount of the source is read as the lease's deposit.
  function ActivateLease(d: Data, now: U64, id: nat, lessee: Address): Result<Data, Error> {
    var lease :- Find(d, id);
    if lessee != lease.lessee then Err(Unauthorized)
    else if lease.state != Pending then Err(LeaseAlreadyActive)
    else if !FitsI64(d.vault.totalLocked + lease.deposit) || !FitsI64(d.vault.available + lease.deposit) then
      Err(ArithmeticOverflow)
    else
      Ok(d.(leases := d.leases[id := lease.(state := Active, lastPayment := now)],
            vault := d.vault.(totalLocked := d.vault.totalLocked + lease.deposit,
                              available := d.vault.available + lease.deposit)))
  }

  // process_rent_payment
  function ProcessRentPayment(d: Data, now: U64, id: nat, amount: I64): Result<Data, Error> {
    var lease :- Find(d, id);
    if amount < lease.rent then Err(InsufficientRentFunds)
    else if lease.state != Active && lease.state != GracePeriod then Err(LeaseNotActive)
    else if lease.state == GracePeriod && !FitsI64(lease.rent + lease.lateFees) then Err(ArithmeticOverflow)
    else if lease.state == GracePeriod && amount < lease.rent + lease.lateFees then Err(InsufficientRentFunds)
    else if !FitsI64(lease.totalPaid + amount) then Err(ArithmeticOverflow)
    else
      var dunning := if lease.state == GracePeriod then None else lease.dunningStart;
      Ok(d.(leases := d.leases[id := lease.(state := Active, lastPayment := now, outstanding := 0,
                                            lateFees := 0, dunningStart := dunning,
                                            totalPaid := lease.totalPaid + amount)]))
  }

  // handle_rent_payment_failure
  function HandleRentPaymentFailure(d: Data, now: U64, id: nat): Result<Data, Error> {
    var lease :- Find(d, id);
    if lease.state != Active then Err(InvalidStateTransition)
    else
      var fee :- LateFee(lease.lateFeeRate, lease.rent);
      if !FitsU64(now + lease.maxGrace) then Err(ArithmeticOverflow)
      else
        Ok(d.(leases := d.leases[id := lease.(state := GracePeriod, dunningStart := Some(now),
                                              outstanding := lease.rent, lateFees := fee)]))
  }

  // execute_arrears_deduction
  function ExecuteArrearsDeduction(d: Data, now: U64, id: nat): Result<Data, Error> {
    var lease :- Find(d, id);
    if lease.state != EvictionPending then Err(InvalidStateTransition)
    else if lease.arrearsProcessed then Err(ArrearsAlreadyProcessed)
    else if lease.dunningStart.None? then Err(InvalidStateTransition)
    else if !FitsI64(lease.outstanding + lease.lateFees) then Err(ArithmeticOverflow)
    else
      var arrears := lease.outstanding + lease.lateFees;
      var deduction :- DeductionAmount(arrears, lease.deposit);
      if d.vault.available < deduction then Err(EscrowVaultUnderflow)
      else if !FitsI64(d.vault.available - deduction) || !FitsI64(d.vault.treasury + deduction) then
        Err(ArithmeticOverflow)
      else
        var credit :- if arrears - deduction > 0
                      then UpdateCredit(d.credit, now, lease.lessee, arrears - deduction, id)
                      else Ok(d.credit);
        Ok(d.(leases := d.leases[id := lease.(arrearsProcessed := true)],
              vault := d.vault.(available := d.vault.available - deduction,
                                treasury := d.vault.treasury + deduction),
              credit := credit))
  }

  // check_grace_period_expiry: the deduction runs in the same call, so its error undoes the eviction.
  function CheckGracePeriodExpiry(d: Data, now: U64, id: nat): Result<Data, Error> {
    var lease :- Find(d, id);
    if lease.state != GracePeriod then Ok(d)
    else if lease.dunningStart.None? then Err(InvalidStateTransition)
    else if !FitsU64(lease.dunningStart.value + lease.maxGrace) then Err(ArithmeticOverflow)
    else if now <= lease.dunningStart.value + lease.maxGrace then Ok(d)
    else if !FitsI64(lease.outstanding + lease.lateFees) then Err(ArithmeticOverflow)
    else
      ExecuteArrearsDeduction(d.(leases := d.leases[id := lease.(state := EvictionPending)]), now, id)
  }

  // trigger_grace_period_check
  function TriggerGracePeriodCheck(d: Data, now: U64, id: nat, caller: Address): Result<Data, Error> {
    var lease :- Find(d, id);
    if caller != lease.lessor then Err(Unauthorized) else CheckGracePeriodExpiry(d, now, id)
  }

  // terminate_lease; refund is what calculate_termination_refund returns.
  function TerminateLease(d: Data, now: U64, id: nat, caller: Address, refund: Option<I64>)
    : Result<(Data, I64), Error>
  {
    var lease :- Find(d, id);
    if caller != lease.lessor && caller != lease.lessee then Err(Unauthorized)
    else if lease.state != Active then Err(LeaseNotActive)
    else
      var amount := if refund.Some? then refund.value else 0;
      var paid := if SatSub(now, lease.lastPayment) < 86400 && amount > 0 then amount - amount / 10 else amount;
      Ok((d.(leases := d.leases[id := lease.(state := Closed)]), paid))
  }

  // ---- Oracle-priced rent ----

  function Pow10(n: nat): int { if n == 0 then 1 else 10 * Pow10(n - 1) }

  // x as i64
  function WrapI64(x: int): I64 {
    var r := x % 0x1_0000_0000_0000_0000;
    if r < 0x8000_0000_0000_0000 then r else r - 0x1_0000_0000_0000_0000
  }

  function Distance(a: int, b: int): nat { if a > b then a - b else b - a }

  // The volatility check applies to a positive stored price at most an hour old.
  predicate RecentPrice(lease: Lease, now: U64) {
    lease.lastPrice.Some? && lease.lastPriceTime.Some? &&
    SatSub(now, lease.lastPriceTime.value) <= 3600 && lease.lastPrice.value > 0
  }

  // get_oracle_price; feed is the oracle's answer, None when the call fails.
  function GetOraclePrice(lease: Lease, peg: FiatPeg, now: U64, feed: Option<PriceData>): Result<PriceData, Error> {
    if feed.None? then Err(OracleCallFailed)
    else
      var p := feed.value;
      if SatSub(now, p.timestamp) > peg.staleness || SatSub(now, p.timestamp) > 3600 then Err(OracleDataStale)
      else if !RecentPrice(lease, now) then Ok(p)
      else
        var change := Distance(p.price, lease.lastPrice.value);
        if !FitsI128(change) || !FitsI128(change * 10000) then Err(ArithmeticOverflow)
        else if change * 10000 / lease.lastPrice.value > peg.volatility then Err(VolatilityCircuitBreaker)
        else Ok(p)
  }

  // calculate_fiat_pegged_rent
  function FiatPeggedRent(lease: Lease, now: U64, feed: Option<PriceData>): Result<I64, Error> {
    if lease.peg.None? then Err(InvalidFiatPegConfig)
    else if !lease.peg.value.enabled then Ok(lease.rent)
    else
      var p :- GetOraclePrice(lease, lease.peg.value, now, feed);
      if !FitsI128(Pow10(p.decimals)) || !FitsI128(lease.peg.value.targetUsd * Pow10(p.decimals)) || p.price == 0 then
        Err(ArithmeticOverflow)
      else
        var crypto := TruncDiv(lease.peg.value.targetUsd * Pow10(p.decimals), p.price);
        if crypto >= 0x8000_0000_0000_0000 then Err(InvalidAmount)
        else if WrapI64(crypto) <= 0 then Err(InvalidAmount)
        else Ok(WrapI64(crypto))
  }

  // process_fiat_pegged_rent_payment; both reads of the oracle in one call see the same feed.
  function ProcessFiatPeggedPayment(d: Data, now: U64, id: nat, feed: Option<PriceData>): Result<Data, Error> {
    var lease :- Find(d, id);
    if lease.state != Active then Err(LeaseNotActive)
    else if lease.peg.None? || !lease.peg.value.enabled then Err(InvalidFiatPegConfig)
    else
      var amount :- FiatPeggedRent(lease, now, feed);
      var p :- GetOraclePrice(lease, lease.peg.value, now, feed);
      if !FitsI64(lease.totalPaid + amount) then Err(ArithmeticOverflow)
      else
        Ok(d.(leases := d.leases[id := lease.(lastPrice := Some(p.price), lastPriceTime := Some(p.timestamp),
                                              lastPayment := now, totalPaid := lease.totalPaid + amount)]))
  }

  // ---- Runs ----

  datatype Op =
    | Create(terms: Terms, prorated: Option<I64>)
    | Activate(id: nat, lessee: Address)
    | PayRent(id: nat, amount: I64)
    | FailRent(id: nat)
    | CheckGrace(id: nat)
    | TriggerCheck(id: nat, caller: Address)
    | Deduct(id: nat)
    | PayFiat(id: nat, feed: Option<PriceData>)
    | Terminate(id: nat, caller: Address, refund: Option<I64>)

  datatype Call = Call(now: U64, op: Op)

  function Step(d: Data, c: Call): Result<Data, Error> {
    match c.op
    case Create(t, p) => CreateLease(d, c.now, t, p)
    case Activate(id, lessee) => ActivateLease(d, c.now, id, lessee)
    case PayRent(id, amount) => ProcessRentPayment(d, c.now, id, amount)
    case FailRent(id) => HandleRentPaymentFailure(d, c.now, id)
    case CheckGrace(id) => CheckGracePeriodExpiry(d, c.now, id)
    case TriggerCheck(id, caller) => TriggerGracePeriodCheck(d, c.now, id, caller)
    case Deduct(id) => ExecuteArrearsDeduction(d, c.now, id)
    case PayFiat(id, feed) => ProcessFiatPeggedPayment(d, c.now, id, feed)
    case Terminate(id, caller, refund) =>
      var r :- TerminateLease(d, c.now, id, caller, refund);
      Ok(r.0)
  }

  // A failed call is rolled back.
  function Apply(d: Data, c: Call): Data {
    var r := Step(d, c);
    if r.Ok? then r.value else d
  }

  function Run(d: Data, calls: seq<Call>): Data
    decreases |calls|
  {
    if calls == [] then d else Run(Apply(d, calls[0]), calls[1..])
  }
}
