/**
 The escrow tracker as the source runs it: a record loaded from storage, updated field by field, and
 saved only after the invariant check passes. A failed update may leave the loaded record half
 changed, but never what is saved.
 */
module EscrowTracker {
  import opened Arith
  import opened EscrowLedger

  class Tracker {
    var total: I128
    var active: I128
    var pending: I128
    var disputed: I128
    var vault: I128
    var leaseCount: U64
    var precisionLoss: I128
    var dust: I128
    var saved: Escrow

    function Loaded(): Escrow
      reads this
    {
      Escrow(total, active, pending, disputed, vault, leaseCount, precisionLoss, dust)
    }

    // Freshly loaded from a state that passed the check.
    predicate Valid()
      reads this
    {
      Loaded() == saved && Solvent(saved)
    }

    constructor ()
      ensures Valid() && saved == NEW_ESCROW
    {
      total, active, pending, disputed, vault := 0, 0, 0, 0, 0;
      leaseCount, precisionLoss, dust, saved := 0, 0, 0, NEW_ESCROW;
    }

    // load
    method Load()
      requires Solvent(saved)
      modifies this
      ensures Valid() && saved == old(saved)
    {
      total, active, pending, disputed, vault := saved.total, saved.active, saved.pending, saved.disputed, saved.vault;
      leaseCount, precisionLoss, dust := saved.leaseCount, saved.precisionLoss, saved.dust;
    }

    // verify_core_invariant, then save
    method VerifyAndSave() returns (r: Result<(), Violation>)
      modifies this`saved
      ensures r.Ok? <==> Solvent(Loaded())
      ensures match Commit(Loaded())
              case Ok(e) => r == Ok(()) && saved == e == Loaded()
              case Err(v) => r == Err(v) && saved == old(saved)
    {
      r := Verify(Loaded());
      if r.Ok? {
        saved := Loaded();
      }
    }

    method ApplyLeaseCreation(deposit: I128) returns (r: Result<(), Violation>)
      requires Valid()
      modifies this
      ensures match Creation(old(saved), deposit)
              case Ok(e) => r == Ok(()) && saved == e && Valid()
              case Err(v) => r == Err(v) && saved == old(saved)
    {
      CreationExact(saved, deposit);
      if deposit < 0 { return Err(NegativeAmount); }
      if !FitsI128(total + deposit) { return Err(CalculationOverflow); }
      total := total + deposit;
      active := active + deposit; // at most the total, so these two cannot overflow
      vault := vault + deposit;
      if !FitsU64(leaseCount + 1) { return Err(HostAbort); }
      leaseCount := leaseCount + 1;
      if deposit > 1_000_000 {
        if !FitsI128(precisionLoss + PrecisionLoss(deposit)) { return Err(CalculationOverflow); }
        precisionLoss := precisionLoss + PrecisionLoss(deposit);
      }
      r := VerifyAndSave();
    }

    method ApplyYieldAccumulation(amount: I128) returns (r: Result<(), Violation>)
      requires Valid()
      modifies this
      ensures match Yield(old(saved), amount)
              case Ok(e) => r == Ok(()) && saved == e && Valid()
              case Err(v) => r == Err(v) && saved == old(saved)
    {
      YieldExact(saved, amount);
      if amount < 0 { return Err(NegativeAmount); }
      if amount > active { return Err(InsufficientActiveDeposits); }
      active := active - amount;
      pending := pending + amount;
      if !FitsI128(precisionLoss + PrecisionLoss(amount)) { return Err(CalculationOverflow); }
      precisionLoss := precisionLoss + PrecisionLoss(amount);
      r := VerifyAndSave();
    }

    method ApplyDisputeInitiation(amount: I128) returns (r: Result<(), Violation>)
      requires Valid()
      modifies this
      ensures match Dispute(old(saved), amount)
              case Ok(e) => r == Ok(()) && saved == e && Valid()
              case Err(v) => r == Err(v) && saved == old(saved)
    {
      DisputeExact(saved, amount);
      if amount < 0 { return Err(NegativeAmount); }
      if amount > active + pending { return Err(InsufficientFundsForDispute); }
      var fromPending := Min(amount, pending);
      var fromActive := amount - fromPending;
      pending := pending - fromPending;
      active := active - fromActive;
      disputed := disputed + amount;
      r := VerifyAndSave();
    }

    method ApplyLeaseSettlement(refund: I128, payout: I128, fee: I128) returns (r: Result<(), Violation>)
      requires Valid()
      modifies this
      ensures match Settlement(old(saved), refund, payout, fee)
              case Ok(e) => r == Ok(()) && saved == e && Valid()
              case Err(v) => r == Err(v) && saved == old(saved)
    {
      if refund < 0 || payout < 0 || fee < 0 { return Err(NegativeAmount); }
      if !FitsI128(refund + payout) || !FitsI128(refund + payout + fee) { return Err(CalculationOverflow); }
      var amount: I128 := refund + payout + fee;
      if amount > total { return Err(InsufficientFundsForSettlement); }
      r := WithdrawAmount(amount);
    }

    method WithdrawAmount(amount: I128) returns (r: Result<(), Violation>)
      requires Valid() && 0 <= amount <= total
      modifies this
      ensures match PayOut(old(saved), amount)
              case Ok(e) => r == Ok(()) && saved == e && Valid()
              case Err(v) => r == Err(v) && saved == old(saved)
    {
      PayOutExact(saved, amount);
      ghost var after := PayOut(saved, amount);
      if !FitsI128(dust + (total - amount)) { return Err(CalculationOverflow); }
      var (fromDisputed, fromPending, fromActive) := SettlementSources(amount, disputed, pending, active);
      SettlementSourcesExact(amount, disputed, pending, active);
      dust, total, vault := dust + (total - amount), total - amount, vault - amount;
      disputed, pending, active := disputed - fromDisputed, pending - fromPending, active - fromActive;
      if amount > 0 { leaseCount := SatSub(leaseCount, 1); }
      assert Commit(Loaded()) == after;
      r := VerifyAndSave();
    }

    method ApplyMutualRelease(returned: I128, slashed: I128) returns (r: Result<(), Violation>)
      requires Valid()
      modifies this
      ensures match Release(old(saved), returned, slashed)
              case Ok(e) => r == Ok(()) && saved == e && Valid()
              case Err(v) => r == Err(v) && saved == old(saved)
    {
      ReleaseExact(saved, returned, slashed);
      if returned < 0 || slashed < 0 { return Err(NegativeAmount); }
      if !FitsI128(returned + slashed) { return Err(CalculationOverflow); }
      if returned + slashed != total { return Err(MutualReleaseMathMismatch); }
      active, pending, disputed := 0, 0, 0;
      total, vault := 0, 0;
      leaseCount := SatSub(leaseCount, 1);
      r := VerifyAndSave();
    }

    method ApplyPartialSlashing(bps: U32) returns (r: Result<(), Violation>)
      requires Valid()
      modifies this
      ensures match Slash(old(saved), bps)
              case Ok(e) => r == Ok(()) && saved == e && Valid()
              case Err(v) => r == Err(v) && saved == old(saved)
      ensures r.Ok? ==> bps <= 10000 && SlashTakes(old(saved), bps, saved)
    {
      if Slash(saved, bps).Ok? {
        SlashTaken(saved, bps);
      }
      if bps > 10000 { return Err(InvalidSlashPercentage); }
      if total == 0 { return Ok(()); }
      if !FitsI128(total * bps) { return Err(CalculationOverflow); }
      SlashIsSpread(saved, bps);
      var slash := SlashAmount(total, bps);
      var ratio := SlashRatio(slash, total);
      var a, p, d := SlashPart(active, ratio), SlashPart(pending, ratio), SlashPart(disputed, ratio);
      r := SpreadSlash(slash, a, p, d);
    }

    method SpreadSlash(slash: int, a: int, p: int, d: int) returns (r: Result<(), Violation>)
      requires Valid() && 0 <= a <= active && 0 <= p <= pending && 0 <= d <= disputed
      requires a + p + d <= slash <= total
      modifies this
      ensures match Spread(old(saved), slash, a, p, d)
              case Ok(e) => r == Ok(()) && saved == e && Valid()
              case Err(v) => r == Err(v) && saved == old(saved)
    {
      ghost var after := Spread(saved, slash, a, p, d);
      active, pending, disputed := active - a, pending - p, disputed - d;
      total, vault := total - slash, vault - slash;
      if a + p + d < slash {
        if !FitsI128(dust + (slash - (a + p + d))) { return Err(CalculationOverflow); }
        dust := dust + (slash - (a + p + d));
      }
      assert Commit(Loaded()) == after;
      r := VerifyAndSave();
    }
  }
}
