/**
 The lifecycle contract as the source runs it: entry points that load the stored data, change it
 field by field and write it back. Each is proved to do exactly what its value-level step does.
 */
module LeaseFlowContract {
  import opened Arith
  import opened LeaseLifecycle
  import Books = LeaseLifecycleBooks
  import Calls = LeaseLifecycleCalls

  class LeaseFlow {
    var leases: map<nat, Lease>
    var nextId: U64
    var vault: Vault
    var credit: map<Address, CreditRecord>

    function Stored(): Data
      reads this
    {
      Data(leases, nextId, vault, credit)
    }

    // Reachable states keep the books; every entry point preserves this.
    ghost predicate Valid()
      reads this
    {
      Books.Inv(Stored())
    }

    constructor ()
      ensures Stored() == INITIAL && Valid()
    {
      leases, nextId, vault, credit := map[], 1, Vault(0, 0, 0), map[];
      new;
      Books.InitOk();
    }

    method Create(now: U64, t: Terms, prorated: Option<I64>) returns (r: Result<U64, Error>)
      requires Valid()
      modifies this
      ensures Valid()
      ensures match CreateLease(old(Stored()), now, t, prorated)
              case Ok(d) => Stored() == d && r == Ok(old(nextId))
              case Err(e) => Stored() == old(Stored()) && r == Err(e)
      ensures r.Ok? ==> r.value in leases && Calls.Carries(leases[r.value], r.value, t)
    {
      Calls.CreationExact(Stored(), now, t, prorated);
      Books.CreateKeepsInv(Stored(), now, t, prorated);
      if t.rent <= 0 || t.deposit <= 0 { return Err(InvalidAmount); }
      if t.startDate >= t.endDate { return Err(InvalidAmount); }
      if t.peg.Some? {
        if t.peg.value.targetUsd <= 0 { return Err(InvalidFiatPegConfig); }
        if t.peg.value.staleness == 0 || t.peg.value.volatility == 0 { return Err(InvalidFiatPegConfig); }
      }
      var id := nextId;
      if !FitsU64(nextId + 1) { return Err(ArithmeticOverflow); }
      var initial := t.rent;
      if now > t.startDate && prorated.Some? { initial := prorated.value; }
      leases := leases[id := Lease(id, t.lessor, t.lessee, t.rent, t.deposit, t.startDate, t.endDate,
                                   Pending, t.maxGrace, t.lateFeeRate, None, 0, 0, 0, false, initial, 0,
                                   t.peg, None, None)];
      nextId := nextId + 1;
      return Ok(id);
    }

    method Activate(now: U64, id: nat, lessee: Address) returns (r: Result<(), Error>)
      requires Valid()
      modifies this
      ensures Valid()
      ensures match ActivateLease(old(Stored()), now, id, lessee)
              case Ok(d) => Stored() == d && r == Ok(())
              case Err(e) => Stored() == old(Stored()) && r == Err(e)
    {
      Books.ActivateKeepsInv(Stored(), now, id, lessee);
      if id !in leases { return Err(LeaseNotFound); }
      var lease := leases[id];
      if lessee != lease.lessee { return Err(Unauthorized); }
      if lease.state != Pending { return Err(LeaseAlreadyActive); }
      if !FitsI64(vault.totalLocked + lease.deposit) || !FitsI64(vault.available + lease.deposit) {
        return Err(ArithmeticOverflow);
      }
      vault := vault.(totalLocked := vault.totalLocked + lease.deposit);
      vault := vault.(available := vault.available + lease.deposit);
      lease := lease.(state := Active);
      lease := lease.(lastPayment := now);
      leases := leases[id := lease];
      return Ok(());
    }

    method PayRent(now: U64, id: nat, amount: I64) returns (r: Result<(), Error>)
      requires Valid()
      modifies this
      ensures Valid()
      ensures match ProcessRentPayment(old(Stored()), now, id, amount)
              case Ok(d) => Stored() == d && r == Ok(())
              case Err(e) => Stored() == old(Stored()) && r == Err(e)
    {
      Books.StepKeepsInv(Stored(), Call(now, Op.PayRent(id, amount)));
      if id !in leases { return Err(LeaseNotFound); }
      var lease := leases[id];
      if amount < lease.rent { return Err(InsufficientRentFunds); }
      match lease.state {
        case Active =>
        case GracePeriod =>
          if !FitsI64(lease.rent + lease.lateFees) { return Err(ArithmeticOverflow); }
          if amount < lease.rent + lease.lateFees { return Err(InsufficientRentFunds); }
          lease := lease.(state := Active, dunningStart := None);
        case _ => return Err(LeaseNotActive);
      }
      if !FitsI64(lease.totalPaid + amount) { return Err(ArithmeticOverflow); }
      lease := lease.(lastPayment := now);
      lease := lease.(outstanding := 0);
      lease := lease.(lateFees := 0);
      lease := lease.(totalPaid := lease.totalPaid + amount);
      leases := leases[id := lease];
      return Ok(());
    }

    method FailRent(now: U64, id: nat) returns (r: Result<(), Error>)
      requires Valid()
      modifies this
      ensures Valid()
      ensures match HandleRentPaymentFailure(old(Stored()), now, id)
              case Ok(d) => Stored() == d && r == Ok(())
              case Err(e) => Stored() == old(Stored()) && r == Err(e)
    {
      Books.StepKeepsInv(Stored(), Call(now, Op.FailRent(id)));
      if id !in leases { return Err(LeaseNotFound); }
      var lease := leases[id];
      if lease.state != Active { return Err(InvalidStateTransition); }
      lease := lease.(state := GracePeriod);
      lease := lease.(dunningStart := Some(now));
      lease := lease.(outstanding := lease.rent);
      var fee := LateFee(lease.lateFeeRate, lease.rent);
      if fee.Err? { return Err(fee.error); }
      lease := lease.(lateFees := fee.value);
      if !FitsU64(now + lease.maxGrace) { return Err(ArithmeticOverflow); }
      leases := leases[id := lease];
      return Ok(());
    }

    // Called directly, where it always fails and changes nothing, and by CheckGrace within the same
    // transaction, where Valid does not hold: the lease has just been evicted and not yet deducted.
    method Deduct(now: U64, id: nat) returns (r: Result<(), Error>)
      modifies this
      ensures old(Valid()) ==> Valid() && r.Err? && Stored() == old(Stored())
      ensures match ExecuteArrearsDeduction(old(Stored()), now, id)
              case Ok(d) => Stored() == d && r == Ok(())
              case Err(e) => Stored() == old(Stored()) && r == Err(e)
    {
      if Valid() {
        Books.DirectDeductionFails(Stored(), now, id);
      }
      if id !in leases { return Err(LeaseNotFound); }
      var lease := leases[id];
      if lease.state != EvictionPending { return Err(InvalidStateTransition); }
      if lease.arrearsProcessed { return Err(ArrearsAlreadyProcessed); }
      if lease.dunningStart.None? { return Err(InvalidStateTransition); }
      if !FitsI64(lease.outstanding + lease.lateFees) { return Err(ArithmeticOverflow); }
      var arrears: I64 := lease.outstanding + lease.lateFees;
      var deduction := DeductionAmount(arrears, lease.deposit);
      if deduction.Err? { return Err(deduction.error); }
      if vault.available < deduction.value { return Err(EscrowVaultUnderflow); }
      if !FitsI64(vault.available - deduction.value) || !FitsI64(vault.treasury + deduction.value) {
        return Err(ArithmeticOverflow);
      }
      var residual := arrears - deduction.value;
      if residual > 0 {
        var updated := UpdateCredit(credit, now, lease.lessee, residual, id);
        if updated.Err? { return Err(updated.error); }
        credit := updated.value;
      }
      vault := vault.(available := vault.available - deduction.value);
      vault := vault.(treasury := vault.treasury + deduction.value);
      leases := leases[id := lease.(arrearsProcessed := true)];
      return Ok(());
    }

    method CheckGrace(now: U64, id: nat) returns (r: Result<(), Error>)
      requires Valid()
      modifies this
      ensures Valid()
      ensures match CheckGracePeriodExpiry(old(Stored()), now, id)
              case Ok(d) => Stored() == d && r == Ok(())
              case Err(e) => Stored() == old(Stored()) && r == Err(e)
    {
      Books.StepKeepsInv(Stored(), Call(now, Op.CheckGrace(id)));
      if id !in leases { return Err(LeaseNotFound); }
      var lease := leases[id];
      if lease.state != GracePeriod { return Ok(()); }
      if lease.dunningStart.None? { return Err(InvalidStateTransition); }
      if !FitsU64(lease.dunningStart.value + lease.maxGrace) { return Err(ArithmeticOverflow); }
      if now <= lease.dunningStart.value + lease.maxGrace { return Ok(()); }
      if !FitsI64(lease.outstanding + lease.lateFees) { return Err(ArithmeticOverflow); }
      var before := leases;
      leases := leases[id := lease.(state := EvictionPending)];
      r := Deduct(now, id);
      if r.Err? {
        leases := before; // the host rolls the transaction back
      }
    }

    method TriggerCheck(now: U64, id: nat, caller: Address) returns (r: Result<(), Error>)
      requires Valid()
      modifies this
      ensures Valid()
      ensures match TriggerGracePeriodCheck(old(Stored()), now, id, caller)
              case Ok(d) => Stored() == d && r == Ok(())
              case Err(e) => Stored() == old(Stored()) && r == Err(e)
    {
      if id !in leases { return Err(LeaseNotFound); }
      if caller != leases[id].lessor { return Err(Unauthorized); }
      r := CheckGrace(now, id);
    }

    method PayFiat(now: U64, id: nat, feed: Option<PriceData>) returns (r: Result<(), Error>)
      requires Valid()
      modifies this
      ensures Valid()
      ensures match ProcessFiatPeggedPayment(old(Stored()), now, id, feed)
              case Ok(d) => Stored() == d && r == Ok(())
              case Err(e) => Stored() == old(Stored()) && r == Err(e)
    {
      Books.StepKeepsInv(Stored(), Call(now, Op.PayFiat(id, feed)));
      if id !in leases { return Err(LeaseNotFound); }
      var lease := leases[id];
      if lease.state != Active { return Err(LeaseNotActive); }
      if lease.peg.None? || !lease.peg.value.enabled { return Err(InvalidFiatPegConfig); }
      var amount := FiatPeggedRent(lease, now, feed);
      if amount.Err? { return Err(amount.error); }
      var price := GetOraclePrice(lease, lease.peg.value, now, feed);
      assert price.Ok?; // the first read of the same feed succeeded
      if !FitsI64(lease.totalPaid + amount.value) { return Err(ArithmeticOverflow); }
      lease := lease.(lastPrice := Some(price.value.price));
      lease := lease.(lastPriceTime := Some(price.value.timestamp));
      lease := lease.(lastPayment := now);
      lease := lease.(totalPaid := lease.totalPaid + amount.value);
      leases := leases[id := lease];
      return Ok(());
    }

    // Returns the refund; a termination within a day of the last payment forfeits a tenth of it.
    method Terminate(now: U64, id: nat, caller: Address, refund: Option<I64>) returns (r: Result<I64, Error>)
      requires Valid()
      modifies this
      ensures Valid()
      ensures match TerminateLease(old(Stored()), now, id, caller, refund)
              case Ok((d, paid)) => Stored() == d && r == Ok(paid)
              case Err(e) => Stored() == old(Stored()) && r == Err(e)
    {
      Books.StepKeepsInv(Stored(), Call(now, Op.Terminate(id, caller, refund)));
      if id !in leases { return Err(LeaseNotFound); }
      var lease := leases[id];
      if caller != lease.lessor && caller != lease.lessee { return Err(Unauthorized); }
      if lease.state != Active { return Err(LeaseNotActive); }
      var amount: I64 := 0;
      if refund.Some? { amount := refund.value; }
      if SatSub(now, lease.lastPayment) < 86400 && amount > 0 {
        amount := amount - amount / 10;
      }
      leases := leases[id := lease.(state := Closed)];
      return Ok(amount);
    }
  }
}
