/**
 The escrow solvency tracker (contracts/leaseflow_contracts/src/escrow_invariant.rs) on values: what
 each apply_* call makes of a loaded state, what it saves, and what every sequence of calls keeps.
 */
module EscrowLedger {
  import opened Arith

  datatype Escrow = Escrow(
    total: I128, active: I128, pending: I128, disputed: I128, vault: I128,
    leaseCount: U64, precisionLoss: I128, dust: I128)

  datatype Violation =
    | CoreInvariantViolated
    | VaultSynchronizationLost
    | NegativeComponentValues
    | LeaseCountMismatch
    | NegativeAmount
    | InsufficientActiveDeposits
    | InsufficientFundsForDispute
    | InsufficientFundsForSettlement
    | MutualReleaseMathMismatch
    | ComponentSumMismatch
    | DustAccountingError
    | InvalidSlashPercentage
    | SlashExceedsTotal
    | CalculationOverflow
    | HostAbort // an unchecked operation overflowed

  const NEW_ESCROW: Escrow := Escrow(0, 0, 0, 0, 0, 0, 0, 0)

  // ---- Pure helpers; safe_add, safe_sub and safe_mul fail with CalculationOverflow ----

  // simulate_soroban_precision_loss
  function PrecisionLoss(amount: I128): I128 {
    if amount > 0 then amount / 1_000_000 else 0
  }

  // Only deposits above a million units are charged a precision loss.
  function CreationLoss(deposit: I128): I128 { if deposit > 1_000_000 then PrecisionLoss(deposit) else 0 }

  // calculate_settlement_sources: disputed funds first, then pending yield, then active deposits.
  function SettlementSources(amount: int, disputed: int, pending: int, active: int): (int, int, int) {
    var fromDisputed := Min(amount, disputed);
    var fromPending := Min(amount - fromDisputed, pending);
    var fromActive := Min(amount - fromDisputed - fromPending, active);
    (fromDisputed, fromPending, fromActive)
  }

  // verify_core_invariant
  function Verify(e: Escrow): Result<(), Violation> {
    if !FitsI128(e.active + e.pending) || !FitsI128(e.active + e.pending + e.disputed) then Err(CalculationOverflow)
    else if e.active + e.pending + e.disputed != e.total then Err(CoreInvariantViolated)
    else if e.vault != e.total then Err(VaultSynchronizationLost)
    else if e.total < 0 || e.active < 0 || e.pending < 0 || e.disputed < 0 || e.vault < 0 then
      Err(NegativeComponentValues)
    else if e.leaseCount > 0 && e.total == 0 then Err(LeaseCountMismatch)
    else Ok(())
  }

  // Verify the updated state and hand it over for saving.
  function Commit(e: Escrow): Result<Escrow, Violation> {
    if Verify(e).Ok? then Ok(e) else Err(Verify(e).error)
  }

  // ---- The six updates ----

  // apply_lease_creation
  function Creation(e: Escrow, deposit: I128): Result<Escrow, Violation> {
    if deposit < 0 then Err(NegativeAmount)
    else
      if !FitsI128(e.total + deposit) || !FitsI128(e.active + deposit) || !FitsI128(e.vault + deposit) then
        Err(CalculationOverflow)
      else if !FitsU64(e.leaseCount + 1) then Err(HostAbort)
      else if !FitsI128(e.precisionLoss + CreationLoss(deposit)) then Err(CalculationOverflow)
      else
        Commit(e.(total := e.total + deposit, active := e.active + deposit, vault := e.vault + deposit,
                  leaseCount := e.leaseCount + 1, precisionLoss := e.precisionLoss + CreationLoss(deposit)))
  }

  // apply_yield_accumulation
  function Yield(e: Escrow, amount: I128): Result<Escrow, Violation> {
    if amount < 0 then Err(NegativeAmount)
    else if amount > e.active then Err(InsufficientActiveDeposits)
    else
      if !FitsI128(e.active - amount) || !FitsI128(e.pending + amount)
         || !FitsI128(e.precisionLoss + PrecisionLoss(amount)) then Err(CalculationOverflow)
      else
        Commit(e.(active := e.active - amount, pending := e.pending + amount,
                  precisionLoss := e.precisionLoss + PrecisionLoss(amount)))
  }

  // apply_dispute_initiation
  function Dispute(e: Escrow, amount: I128): Result<Escrow, Violation> {
    if amount < 0 then Err(NegativeAmount)
    else
      if !FitsI128(e.active + e.pending) then Err(CalculationOverflow)
      else if amount > e.active + e.pending then Err(InsufficientFundsForDispute)
      else
        var fromPending := Min(amount, e.pending);
        var fromActive := amount - fromPending;
        if !FitsI128(fromActive) || !FitsI128(e.pending - fromPending) || !FitsI128(e.active - fromActive)
           || !FitsI128(e.disputed + amount) then Err(CalculationOverflow)
        else
          Commit(e.(pending := e.pending - fromPending, active := e.active - fromActive,
                    disputed := e.disputed + amount))
  }

  // apply_lease_settlement
  function Settlement(e: Escrow, refund: I128, payout: I128, fee: I128): Result<Escrow, Violation> {
    if refund < 0 || payout < 0 || fee < 0 then Err(NegativeAmount)
    else
      var amount := refund + payout + fee;
      if !FitsI128(refund + payout) || !FitsI128(amount) then Err(CalculationOverflow)
      else if amount > e.total then Err(InsufficientFundsForSettlement)
      else if !FitsI128(e.total - amount) then Err(HostAbort)
      else PayOut(e, amount)
  }

  // The part of apply_lease_settlement that moves the money.
  function PayOut(e: Escrow, amount: I128): Result<Escrow, Violation> {
    var (d, p, a) := SettlementSources(amount, e.disputed, e.pending, e.active);
    if !FitsI128(e.dust + (e.total - amount)) || !FitsI128(d + p) || !FitsI128(d + p + a) then Err(CalculationOverflow)
    else if d + p + a != amount then Err(DustAccountingError)
    else if !FitsI128(e.disputed - d) || !FitsI128(e.pending - p) || !FitsI128(e.active - a)
            || !FitsI128(e.total - amount) || !FitsI128(e.vault - amount) then Err(CalculationOverflow)
    else
      Commit(e.(dust := e.dust + (e.total - amount), disputed := e.disputed - d, pending := e.pending - p,
                active := e.active - a, total := e.total - amount, vault := e.vault - amount,
                leaseCount := if amount > 0 then SatSub(e.leaseCount, 1) else e.leaseCount))
  }

  // apply_mutual_release
  function Release(e: Escrow, returned: I128, slashed: I128): Result<Escrow, Violation> {
    if returned < 0 || slashed < 0 then Err(NegativeAmount)
    else
      if !FitsI128(returned + slashed) then Err(CalculationOverflow)
      else if returned + slashed != e.total then Err(MutualReleaseMathMismatch)
      else if !FitsI128(e.active + e.pending) || !FitsI128(e.active + e.pending + e.disputed) then
        Err(CalculationOverflow)
      else if e.active + e.pending + e.disputed != returned + slashed then Err(ComponentSumMismatch)
      else
        Commit(e.(active := 0, pending := 0, disputed := 0, total := 0, vault := 0,
                  leaseCount := SatSub(e.leaseCount, 1)))
  }

  // x as u128
  function AsU128(x: I128): nat {
    if x >= 0 then x else x + 0x1_0000_0000_0000_0000_0000_0000_0000_0000
  }

  // The slash amount, the ratio recomputed from it, and one component's part, each truncated.
  function SlashAmount(total: int, bps: nat): int { TruncDiv(total * bps, 10000) }
  function SlashRatio(slash: int, total: int): int { if total > 0 then slash * 10000 / total else 0 }
  function SlashPart(component: I128, ratio: int): int { AsU128(component) * ratio / 10000 }

  // apply_partial_slashing
  function Slash(e: Escrow, bps: U32): Result<Escrow, Violation> {
    if bps > 10000 then Err(InvalidSlashPercentage)
    else if e.total == 0 then Ok(e)
    else
      if !FitsI128(e.total * bps) then Err(CalculationOverflow)
      else
        var slash := SlashAmount(e.total, bps);
        if slash > e.total then Err(SlashExceedsTotal)
        else if e.total > 0 && !FitsU128(slash * 10000) then Err(HostAbort)
        else SlashBy(e, slash)
  }

  // The part of apply_partial_slashing that spreads a slash over the components.
  function SlashBy(e: Escrow, slash: int): Result<Escrow, Violation> {
    var ratio := SlashRatio(slash, e.total);
    if !FitsU128(AsU128(e.active) * ratio) || !FitsU128(AsU128(e.pending) * ratio)
       || !FitsU128(AsU128(e.disputed) * ratio) then Err(HostAbort)
    else Spread(e, slash, SlashPart(e.active, ratio), SlashPart(e.pending, ratio), SlashPart(e.disputed, ratio))
  }

  // Take the parts a, p and d from the components, and record what they lack of the slash as dust.
  function Spread(e: Escrow, slash: int, a: int, p: int, d: int): Result<Escrow, Violation> {
    if !FitsI128(e.active - a) || !FitsI128(e.pending - p) || !FitsI128(e.disputed - d)
       || !FitsI128(e.total - slash) || !FitsI128(e.vault - slash) then Err(HostAbort)
    else
      var loss := if a + p + d < slash then slash - (a + p + d) else 0;
      if !FitsI128(a + p) || !FitsI128(a + p + d) || !FitsI128(e.dust + loss) then Err(CalculationOverflow)
      else
        Commit(e.(active := e.active - a, pending := e.pending - p, disputed := e.disputed - d,
                  total := e.total - slash, vault := e.vault - slash, dust := e.dust + loss))
  }

  // ---- What a saved state satisfies ----

  predicate Solvent(e: Escrow) {
    && e.total == e.active + e.pending + e.disputed
    && e.vault == e.total
    && e.active >= 0 && e.pending >= 0 && e.disputed >= 0
    && (e.leaseCount > 0 ==> e.total > 0)
  }

  lemma VerifyExact(e: Escrow)
    ensures Verify(e).Ok? <==> Solvent(e)
  {
  }

  // An accepted result is solvent and moved exactly the requested flow; the branches that report
  // broken books are not taken.
  predicate Sound(e: Escrow, flow: int, r: Result<Escrow, Violation>) {
    match r
    case Ok(e') => Solvent(e') && e'.total == e.total + flow
    case Err(v) => !v.DustAccountingError? && !v.ComponentSumMismatch? && !v.SlashExceedsTotal?
                   && !v.VaultSynchronizationLost? && !v.NegativeComponentValues?
  }

  // ---- Exact acceptance and effect, update by update ----

  lemma CreationExact(e: Escrow, deposit: I128)
    requires Solvent(e)
    ensures var r := Creation(e, deposit);
            && (r.Ok? <==>
                && deposit >= 0 && e.total + deposit > 0 && FitsI128(e.total + deposit)
                && FitsU64(e.leaseCount + 1) && FitsI128(e.precisionLoss + CreationLoss(deposit)))
            && (r.Ok? ==> Solvent(r.value)
                          && r.value == e.(total := e.total + deposit, active := e.active + deposit,
                                           vault := e.vault + deposit, leaseCount := e.leaseCount + 1,
                                           precisionLoss := e.precisionLoss + CreationLoss(deposit)))
    ensures Sound(e, deposit, Creation(e, deposit))
  {
  }

  lemma YieldExact(e: Escrow, amount: I128)
    requires Solvent(e)
    ensures var r := Yield(e, amount);
            && (r.Ok? <==> 0 <= amount <= e.active && FitsI128(e.precisionLoss + PrecisionLoss(amount)))
            && (r.Ok? ==> Solvent(r.value) && r.value.total == e.total && r.value.disputed == e.disputed
                          && r.value.pending == e.pending + amount && r.value.leaseCount == e.leaseCount
                          && r.value.precisionLoss == e.precisionLoss + PrecisionLoss(amount) && r.value.dust == e.dust)
    ensures Sound(e, 0, Yield(e, amount))
  {
  }

  lemma DisputeExact(e: Escrow, amount: I128)
    requires Solvent(e)
    ensures var r := Dispute(e, amount);
            && (r.Ok? <==> 0 <= amount <= e.active + e.pending)
            && (r.Ok? ==> Solvent(r.value) && r.value.total == e.total
                          && r.value.disputed == e.disputed + amount
                          && (r.value.pending == 0 || r.value.active == e.active)
                          && r.value.pending <= e.pending && r.value.active <= e.active
                          && r.value.leaseCount == e.leaseCount && r.value.dust == e.dust
                          && r.value.precisionLoss == e.precisionLoss)
    ensures Sound(e, 0, Dispute(e, amount))
  {
  }

  // The waterfall empties a source before it touches the next, and pays the amount in full.
  lemma SettlementSourcesExact(amount: int, disputed: int, pending: int, active: int)
    requires disputed >= 0 && pending >= 0 && active >= 0
    requires 0 <= amount <= disputed + pending + active
    ensures var (d, p, a) := SettlementSources(amount, disputed, pending, active);
            && d + p + a == amount
            && 0 <= d <= disputed && 0 <= p <= pending && 0 <= a <= active
            && (p > 0 ==> d == disputed) && (a > 0 ==> d == disputed && p == pending)
  {
  }

  // A solvent escrow after paying out an amount it holds.
  function Paid(e: Escrow, amount: int): Escrow
    requires Solvent(e) && 0 <= amount <= e.total && FitsI128(e.dust + (e.total - amount))
  {
    var (d, p, a) := SettlementSources(amount, e.disputed, e.pending, e.active);
    e.(dust := e.dust + (e.total - amount), disputed := e.disputed - d, pending := e.pending - p,
       active := e.active - a, total := e.total - amount, vault := e.vault - amount,
       leaseCount := if amount > 0 then SatSub(e.leaseCount, 1) else e.leaseCount)
  }

  lemma PaidExact(e: Escrow, amount: int)
    requires Solvent(e) && 0 <= amount <= e.total && FitsI128(e.dust + (e.total - amount))
    ensures var e' := Paid(e, amount);
            && Verify(e') == (if e'.leaseCount > 0 && e'.total == 0 then Err(LeaseCountMismatch) else Ok(()))
            && e'.total == e.total - amount && e'.dust == e.dust + e'.total
            && e'.leaseCount == (if amount > 0 then SatSub(e.leaseCount, 1) else e.leaseCount)
            && e'.disputed <= e.disputed && e'.pending <= e.pending && e'.active <= e.active
            && (e'.pending < e.pending ==> e'.disputed == 0)
            && (e'.active < e.active ==> e'.disputed == 0 && e'.pending == 0)
  {
    SettlementSourcesExact(amount, e.disputed, e.pending, e.active);
  }

  lemma PayOutExact(e: Escrow, amount: I128)
    requires Solvent(e) && 0 <= amount <= e.total
    ensures PayOut(e, amount) == if FitsI128(e.dust + (e.total - amount)) then Commit(Paid(e, amount))
                                 else Err(CalculationOverflow)
  {
    SettlementSourcesExact(amount, e.disputed, e.pending, e.active);
  }

  lemma SettlementExact(e: Escrow, refund: I128, payout: I128, fee: I128)
    requires Solvent(e)
    ensures var r := Settlement(e, refund, payout, fee);
            var amount := refund + payout + fee;
            && r != Err(DustAccountingError)
            && (r.Ok? <==>
                && refund >= 0 && payout >= 0 && fee >= 0 && amount <= e.total
                && FitsI128(e.dust + e.total - amount)
                && (amount == e.total ==> e.leaseCount == 0 || (e.leaseCount == 1 && amount > 0)))
            && (r.Ok? ==> Solvent(r.value) && r.value.total == e.total - amount
                          && r.value.dust == e.dust + e.total - amount
                          && r.value.leaseCount == (if amount > 0 then SatSub(e.leaseCount, 1) else e.leaseCount)
                          && r.value.precisionLoss == e.precisionLoss && r.value.disputed <= e.disputed
                          && r.value.pending <= e.pending && r.value.active <= e.active
                          && (r.value.pending < e.pending ==> r.value.disputed == 0)
                          && (r.value.active < e.active ==> r.value.disputed == 0 && r.value.pending == 0))
    ensures Sound(e, -(refund + payout + fee), Settlement(e, refund, payout, fee))
  {
    var amount := refund + payout + fee;
    if refund >= 0 && payout >= 0 && fee >= 0 && amount <= e.total {
      PayOutExact(e, amount);
      if FitsI128(e.dust + (e.total - amount)) {
        PaidExact(e, amount);
        VerifyExact(Paid(e, amount));
      }
    }
  }

  lemma ReleaseExact(e: Escrow, returned: I128, slashed: I128)
    requires Solvent(e)
    ensures var r := Release(e, returned, slashed);
            && r != Err(ComponentSumMismatch)
            && (r.Ok? <==> returned >= 0 && slashed >= 0 && returned + slashed == e.total && e.leaseCount <= 1)
            && (r.Ok? ==> r.value == NEW_ESCROW.(precisionLoss := e.precisionLoss, dust := e.dust))
    ensures Sound(e, -(returned + slashed), Release(e, returned, slashed))
  {
  }

  // ---- Partial slashing ----

  lemma ProductBounds(x: int, y: int, x': int, y': int)
    requires 0 <= x <= x' && 0 <= y <= y'
    ensures 0 <= x * y <= x' * y'
  {
    assert x * y <= x' * y <= x' * y';
  }

  // How far the truncated parts fall short of the slash amount.
  function Shortfall(e: Escrow, bps: nat): int {
    var slash := SlashAmount(e.total, bps);
    var ratio := SlashRatio(slash, e.total);
    slash - (SlashPart(e.active, ratio) + SlashPart(e.pending, ratio) + SlashPart(e.disputed, ratio))
  }

  lemma SlashAmountBounds(total: int, bps: nat)
    requires total > 0 && bps <= 10000
    ensures var s := SlashAmount(total, bps);
            && 0 <= s <= total
            && 0 <= SlashRatio(s, total) <= bps
            && total * SlashRatio(s, total) <= 10000 * s < total * SlashRatio(s, total) + total
            && 0 <= s * 10000 <= total * bps
  {
    var product := total * bps;
    assert 0 <= product <= total * 10000;
    QuotientBounds(product, 10000);
    RatioBounds(SlashAmount(total, bps), total, bps);
  }

  lemma RatioBounds(s: int, total: int, bps: nat)
    requires total > 0 && 0 <= s && s * 10000 <= total * bps
    ensures 0 <= SlashRatio(s, total) <= bps
    ensures total * SlashRatio(s, total) <= 10000 * s < total * SlashRatio(s, total) + total
  {
    var q := SlashRatio(s, total);
    QuotientBounds(s * 10000, total);
    if q > bps {
      ProductBounds(total, bps + 1, total, q);
      assert false;
    }
    assert q < 0 ==> total * q <= -total;
  }

  // Nested truncation loses less than one unit per part, and less than one ratio step in all.
  lemma ShortfallBounds(e: Escrow, bps: U32)
    requires Solvent(e) && e.total > 0 && bps <= 10000
    ensures 0 <= Shortfall(e, bps) && 10000 * Shortfall(e, bps) <= e.total + 29996
    ensures var ratio := SlashRatio(SlashAmount(e.total, bps), e.total);
            && 0 <= SlashPart(e.active, ratio) <= e.active
            && 0 <= SlashPart(e.pending, ratio) <= e.pending
            && 0 <= SlashPart(e.disputed, ratio) <= e.disputed
            && 0 <= e.active * ratio <= e.total * bps
            && 0 <= e.pending * ratio <= e.total * bps
            && 0 <= e.disputed * ratio <= e.total * bps
  {
    SlashAmountBounds(e.total, bps);
    var ratio := SlashRatio(SlashAmount(e.total, bps), e.total);
    PartBounds(e.active, ratio);
    PartBounds(e.pending, ratio);
    PartBounds(e.disputed, ratio);
    ProductBounds(e.active, ratio, e.total, bps);
    ProductBounds(e.pending, ratio, e.total, bps);
    ProductBounds(e.disputed, ratio, e.total, bps);
    assert e.total * ratio == e.active * ratio + e.pending * ratio + e.disputed * ratio by {
      Distribute(e.active, e.pending, e.disputed, ratio);
    }
  }

  lemma Distribute(a: int, b: int, c: int, k: int)
    ensures (a + b + c) * k == a * k + b * k + c * k
  {
  }

  lemma PartBounds(c: I128, ratio: int)
    requires c >= 0 && 0 <= ratio <= 10000
    ensures 0 <= SlashPart(c, ratio) <= c
    ensures 10000 * SlashPart(c, ratio) <= c * ratio <= 10000 * SlashPart(c, ratio) + 9999
  {
    assert 0 <= c * ratio <= c * 10000;
    QuotientBounds(c * ratio, 10000);
  }

  // Spreading parts that fit their components and lack k of the slash: accepted exactly when k is
  // zero and no lease is left without escrow.
  predicate SpreadAsFar(e: Escrow, slash: int, k: int, r: Result<Escrow, Violation>) {
    && (r.Ok? <==> k == 0 && (e.leaseCount > 0 ==> slash < e.total))
    && r != Err(HostAbort) && r != Err(SlashExceedsTotal)
    && (k > 0 ==> r == Err(if FitsI128(e.dust + k) then CoreInvariantViolated else CalculationOverflow))
    && (r.Ok? ==> Solvent(r.value) && r.value.total == e.total - slash
                  && r.value.dust == e.dust && r.value.leaseCount == e.leaseCount
                  && r.value.active <= e.active && r.value.pending <= e.pending
                  && r.value.disputed <= e.disputed)
    && Sound(e, -slash, r)
  }

  lemma SpreadExact(e: Escrow, slash: int, a: int, p: int, d: int)
    requires Solvent(e) && 0 <= a <= e.active && 0 <= p <= e.pending && 0 <= d <= e.disputed
    requires a + p + d <= slash <= e.total
    ensures SpreadAsFar(e, slash, slash - (a + p + d), Spread(e, slash, a, p, d))
  {
  }

  // ---- When truncation loses nothing ----

  // A caller's test: the slash is a whole ratio of the total, and the ratio a whole part of each component.
  predicate Lossless(e: Escrow, bps: nat)
    requires e.total > 0
  {
    var slash := SlashAmount(e.total, bps);
    var ratio := SlashRatio(slash, e.total);
    && slash * 10000 % e.total == 0
    && e.active * ratio % 10000 == 0 && e.pending * ratio % 10000 == 0 && e.disputed * ratio % 10000 == 0
  }

  // Ten thousand times the shortfall is the sum of the four remainders.
  lemma ShortfallRemainders(e: Escrow, bps: U32)
    requires Solvent(e) && e.total > 0 && bps <= 10000
    ensures var slash := SlashAmount(e.total, bps);
            var ratio := SlashRatio(slash, e.total);
            10000 * Shortfall(e, bps) ==
            slash * 10000 % e.total
            + e.active * ratio % 10000 + e.pending * ratio % 10000 + e.disputed * ratio % 10000
  {
    var slash := SlashAmount(e.total, bps);
    var ratio := SlashRatio(slash, e.total);
    Distribute(e.active, e.pending, e.disputed, ratio);
    DivisionExact(slash * 10000, e.total);
    DivisionExact(e.active * ratio, 10000);
    DivisionExact(e.pending * ratio, 10000);
    DivisionExact(e.disputed * ratio, 10000);
  }

  lemma LosslessExact(e: Escrow, bps: U32)
    requires Solvent(e) && e.total > 0 && bps <= 10000
    ensures Shortfall(e, bps) == 0 <==> Lossless(e, bps)
  {
    ShortfallRemainders(e, bps);
  }

  /**
   A slash of a solvent, non-empty escrow: once the checked multiplication fits, nothing overflows
   and the slash never exceeds the total; the call is accepted exactly when truncation loses
   nothing and no lease is left without escrow. So an accepted slash never records dust.
   */
  lemma SlashExact(e: Escrow, bps: U32)
    requires Solvent(e) && e.total > 0 && bps <= 10000
    ensures var r := Slash(e, bps);
            var slash := SlashAmount(e.total, bps);
            && 0 <= Shortfall(e, bps) && 10000 * Shortfall(e, bps) <= e.total + 29996
            && (Shortfall(e, bps) == 0 <==> Lossless(e, bps))
            && (r.Ok? <==>
                FitsI128(e.total * bps) && Lossless(e, bps) && (e.leaseCount > 0 ==> slash < e.total))
            && r != Err(HostAbort) && r != Err(SlashExceedsTotal)
            && (FitsI128(e.total * bps) && Shortfall(e, bps) > 0 ==>
                  r == Err(if FitsI128(e.dust + Shortfall(e, bps)) then CoreInvariantViolated else CalculationOverflow))
            && (r.Ok? ==> Solvent(r.value) && r.value.total == e.total - slash
                          && r.value.dust == e.dust && r.value.leaseCount == e.leaseCount
                          && r.value.active <= e.active && r.value.pending <= e.pending
                          && r.value.disputed <= e.disputed)
    ensures Sound(e, -SlashAmount(e.total, bps), Slash(e, bps))
  {
    SlashAmountBounds(e.total, bps);
    ShortfallBounds(e, bps);
    LosslessExact(e, bps);
    if FitsI128(e.total * bps) {
      SlashSpreads(e, bps);
    }
  }

  // Once the checked product fits, only the spreading can fail.
  lemma SlashIsSpread(e: Escrow, bps: U32)
    requires Solvent(e) && e.total > 0 && bps <= 10000 && FitsI128(e.total * bps)
    ensures var slash := SlashAmount(e.total, bps);
            var ratio := SlashRatio(slash, e.total);
            var a, p, d := SlashPart(e.active, ratio), SlashPart(e.pending, ratio), SlashPart(e.disputed, ratio);
            && 0 <= a <= e.active && 0 <= p <= e.pending && 0 <= d <= e.disputed && a + p + d <= slash <= e.total
            && Slash(e, bps) == Spread(e, slash, a, p, d)
  {
    SlashAmountBounds(e.total, bps);
    ShortfallBounds(e, bps);
  }

  lemma SlashSpreads(e: Escrow, bps: U32)
    requires Solvent(e) && e.total > 0 && bps <= 10000 && FitsI128(e.total * bps)
    ensures SpreadAsFar(e, SlashAmount(e.total, bps), Shortfall(e, bps), Slash(e, bps))
  {
    SlashIsSpread(e, bps);
    var slash := SlashAmount(e.total, bps);
    var ratio := SlashRatio(slash, e.total);
    SpreadExact(e, slash, SlashPart(e.active, ratio), SlashPart(e.pending, ratio), SlashPart(e.disputed, ratio));
  }

  // Slash amount and ratio are the rounded quotients, the product before the division.
  lemma SlashTermsExact(total: int, bps: nat)
    requires total > 0
    ensures var s := SlashAmount(total, bps);
            IsFloor(s, total * bps, 10000) && IsFloor(SlashRatio(s, total), s * 10000, total)
  {
    ScaleMonotone(total, 0, bps);
    QuotientBounds(total * bps, 10000);
    QuotientBounds(SlashAmount(total, bps) * 10000, total);
  }

  // What an accepted slash takes: bps of the total, and of each component in proportion.
  predicate SlashTakes(e: Escrow, bps: int, e': Escrow) {
    && IsFloor(e.total - e'.total, e.total * bps, 10000)
    && IsFloor(e.active - e'.active, e.active * bps, 10000)
    && IsFloor(e.pending - e'.pending, e.pending * bps, 10000)
    && IsFloor(e.disputed - e'.disputed, e.disputed * bps, 10000)
    && (e.active - e'.active) * e.total == e.active * (e.total - e'.total)
    && (e.pending - e'.pending) * e.total == e.pending * (e.total - e'.total)
    && (e.disputed - e'.disputed) * e.total == e.disputed * (e.total - e'.total)
    && e'.vault == e'.total && e'.leaseCount == e.leaseCount && e'.precisionLoss == e.precisionLoss
    && e'.dust == e.dust
  }

  // One component c of the total t, at a ratio that divides it evenly, of a slash s.
  lemma ComponentTaken(c: int, t: int, s: int, ratio: int, bps: int, part: int)
    requires 0 <= c <= t && t > 0 && 10000 * part == c * ratio && t * ratio == 10000 * s
    requires 0 <= ratio <= bps && IsFloor(s, t * bps, 10000)
    ensures IsFloor(part, c * bps, 10000) && part * t == c * s
  {
    assert 10000 * (part * t) == c * (ratio * t) == 10000 * (c * s) by {
      assert (10000 * part) * t == (c * ratio) * t;
    }
    ScaleMonotone(c, ratio, bps);
    assert t * (bps - ratio) < 10000;
    assert c * (bps - ratio) <= t * (bps - ratio) by { ProductBounds(c, bps - ratio, t, bps - ratio); }
    assert c * bps == c * ratio + c * (bps - ratio);
  }

  /**
   What a slash takes, in the caller's terms: if it is accepted, bps ten-thousandths of the total
   rounded down, and the same of every component, each exactly its share of the total slash.
   */
  lemma SlashTaken(e: Escrow, bps: U32)
    requires Solvent(e) && Slash(e, bps).Ok?
    ensures bps <= 10000 && SlashTakes(e, bps, Slash(e, bps).value)
  {
    if e.total > 0 {
      SlashExact(e, bps);
      SlashIsSpread(e, bps);
      SlashAmountBounds(e.total, bps);
      var s := SlashAmount(e.total, bps);
      var ratio := SlashRatio(s, e.total);
      SlashTermsExact(e.total, bps);
      DivisionExact(s * 10000, e.total);
      EvenPart(e.active, ratio);
      EvenPart(e.pending, ratio);
      EvenPart(e.disputed, ratio);
      ComponentTaken(e.active, e.total, s, ratio, bps, SlashPart(e.active, ratio));
      ComponentTaken(e.pending, e.total, s, ratio, bps, SlashPart(e.pending, ratio));
      ComponentTaken(e.disputed, e.total, s, ratio, bps, SlashPart(e.disputed, ratio));
    }
  }

  lemma EvenPart(c: I128, ratio: int)
    requires c >= 0 && c * ratio % 10000 == 0
    ensures 10000 * SlashPart(c, ratio) == c * ratio
  {
    DivisionExact(c * ratio, 10000);
  }

  /**
   When a slash is accepted, in products only: s is bps of the total rounded down, k the ratio of s to
   the total in ten-thousandths rounded down, and both of these, and k of each component, are even.
   */
  lemma SlashAccepted(e: Escrow, bps: U32, s: int, k: int)
    requires Solvent(e) && e.total > 0 && bps <= 10000
    requires IsFloor(s, e.total * bps, 10000) && IsFloor(k, s * 10000, e.total)
    ensures Slash(e, bps).Ok? <==>
            && FitsI128(e.total * bps) && (e.leaseCount > 0 ==> s < e.total) && e.total * k == s * 10000
            && e.active * k % 10000 == 0 && e.pending * k % 10000 == 0 && e.disputed * k % 10000 == 0
  {
    SlashTermsExact(e.total, bps);
    FloorUnique(s, SlashAmount(e.total, bps), e.total * bps, 10000);
    FloorUnique(k, SlashRatio(s, e.total), s * 10000, e.total);
    DivisionExact(s * 10000, e.total);
    SlashExact(e, bps);
  }

  // Truncation makes the code reject legal percentages: 0.01% of any escrow of 10001 to 19999 units.
  lemma SlashRejectsTruncation(e: Escrow)
    requires Solvent(e) && 10000 < e.total < 20000 && FitsI128(e.dust + 1)
    ensures Slash(e, 1) == Err(CoreInvariantViolated)
  {
    SlashExact(e, 1);
    assert SlashAmount(e.total, 1) == 1;
    assert SlashRatio(1, e.total) == 0;
  }

  // ---- Whole runs ----

  datatype Update =
    | Create(deposit: I128)
    | Accrue(amount: I128)
    | Contest(amount: I128)
    | Settle(refund: I128, payout: I128, fee: I128)
    | ReleaseAll(returned: I128, slashed: I128)
    | SlashPercent(bps: U32)

  function Step(e: Escrow, u: Update): Result<Escrow, Violation> {
    match u
    case Create(d) => Creation(e, d)
    case Accrue(a) => Yield(e, a)
    case Contest(a) => Dispute(e, a)
    case Settle(r, p, f) => Settlement(e, r, p, f)
    case ReleaseAll(r, s) => Release(e, r, s)
    case SlashPercent(b) => Slash(e, b)
  }

  // What the caller asks to move into (positive) or out of (negative) escrow.
  function Flow(e: Escrow, u: Update): int {
    match u
    case Create(d) => d
    case Accrue(_) => 0
    case Contest(_) => 0
    case Settle(r, p, f) => -(r + p + f)
    case ReleaseAll(r, s) => -(r + s)
    case SlashPercent(b) => -SlashAmount(e.total, b)
  }

  // Only an accepted update is saved.
  function Apply(e: Escrow, u: Update): Escrow {
    var r := Step(e, u);
    if r.Ok? then r.value else e
  }

  function Run(e: Escrow, us: seq<Update>): Escrow
    decreases |us|
  {
    if us == [] then e else Run(Apply(e, us[0]), us[1..])
  }

  function NetFlow(e: Escrow, us: seq<Update>): int
    decreases |us|
  {
    if us == [] then 0
    else (if Step(e, us[0]).Ok? then Flow(e, us[0]) else 0) + NetFlow(Apply(e, us[0]), us[1..])
  }

  lemma StepKeepsSolvency(e: Escrow, u: Update)
    requires Solvent(e)
    ensures Sound(e, Flow(e, u), Step(e, u))
  {
    match u
    case Create(d) => CreationExact(e, d);
    case Accrue(a) => YieldExact(e, a);
    case Contest(a) => DisputeExact(e, a);
    case Settle(x, p, f) => SettlementExact(e, x, p, f);
    case ReleaseAll(x, s) => ReleaseExact(e, x, s);
    case SlashPercent(b) =>
      if b <= 10000 && e.total > 0 { SlashExact(e, b); }
  }

  /** Every run keeps the escrow solvent, and the total is what flowed in minus what flowed out. */
  lemma {:induction false} RunKeepsSolvency(e: Escrow, us: seq<Update>)
    requires Solvent(e)
    ensures Solvent(Run(e, us))
    ensures Run(e, us).total == e.total + NetFlow(e, us)
    decreases |us|
  {
    if us == [] {
    } else {
      StepKeepsSolvency(e, us[0]);
      RunKeepsSolvency(Apply(e, us[0]), us[1..]);
    }
  }
}
