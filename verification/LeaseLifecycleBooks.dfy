/**
 What every run of the lifecycle contract keeps: vault scalars and credit records are sums over the
 lease map, and each lease's dunning fields follow its state.
 */
module LeaseLifecycleBooks {
  import opened Arith
  import opened LeaseLifecycle
  import opened LeaseLifecycleCalls

  // ---- Reference quantities, in terms of a lease's fixed terms ----

  function Arrears(l: Lease): int { l.rent + ExactLateFee(l.rent, l.lateFeeRate) }

  // What the lessee still owes once the deposit is drained.
  function Residual(l: Lease): int { Max(0, Arrears(l) - l.deposit) }

  function Locked(l: Lease): int { if l.state == Pending then 0 else l.deposit }

  function Seized(l: Lease): int { if l.arrearsProcessed then Min(Arrears(l), l.deposit) else 0 }

  predicate Defaulted(l: Lease, a: Address) { l.lessee == a && l.arrearsProcessed && Residual(l) > 0 }

  function DebtOf(a: Address): Lease -> int {
    l => if Defaulted(l, a) then Residual(l) else 0
  }

  // ---- The invariant ----

  predicate InArrears(l: Lease) { l.state == GracePeriod || l.state == EvictionPending }

  predicate LeaseOk(l: Lease) {
    && l.rent > 0 && l.deposit > 0
    && (l.arrearsProcessed <==> l.state == EvictionPending)
    && (l.dunningStart.Some? <==> InArrears(l))
    && (InArrears(l) ==> FitsU64(l.dunningStart.value + l.maxGrace))
    && (if InArrears(l)
        then l.outstanding == l.rent && l.lateFees == ExactLateFee(l.rent, l.lateFeeRate)
        else l.outstanding == 0 && l.lateFees == 0)
    && l.totalPaid >= 0
    && (l.peg.Some? ==> l.peg.value.targetUsd > 0)
  }

  predicate LeasesOk(d: Data) {
    && d.nextId >= 1
    && forall id: nat | id in d.leases :: 1 <= id < d.nextId && d.leases[id].leaseId == id && LeaseOk(d.leases[id])
  }

  ghost predicate VaultOk(d: Data) {
    && d.vault.totalLocked == d.vault.available + d.vault.treasury
    && d.vault.totalLocked == SumBelow(d.leases, Locked, d.nextId)
    && d.vault.treasury == SumBelow(d.leases, Seized, d.nextId)
  }

  // The record of one lessee against the lease map; a missing record counts as an empty one.
  ghost predicate CreditFor(leases: map<nat, Lease>, n: nat, r: CreditRecord, a: Address) {
    && r.lessee == a
    && r.totalDebt == SumBelow(leases, DebtOf(a), n)
    && r.defaultCount == |r.leaseIds|
    && NoDuplicates(r.leaseIds)
    && forall id: nat :: id in r.leaseIds <==> id in leases && Defaulted(leases[id], a)
  }

  ghost predicate CreditOk(d: Data) {
    forall a: Address :: CreditFor(d.leases, d.nextId, RecordOf(d.credit, a), a)
  }

  ghost predicate Inv(d: Data) { LeasesOk(d) && VaultOk(d) && CreditOk(d) }

  // ---- Single-lease updates ----

  // The new record adds to every sum what the old one did.
  predicate SameBooks(l: Lease, l': Lease) {
    && l'.rent == l.rent && l'.deposit == l.deposit && l'.lateFeeRate == l.lateFeeRate
    && l'.lessee == l.lessee && l'.arrearsProcessed == l.arrearsProcessed
    && (l'.state == Pending <==> l.state == Pending)
  }

  lemma UpdateKeepsCredit(d: Data, d': Data, id: nat, l': Lease)
    requires CreditOk(d) && id in d.leases && id < d.nextId
    requires SameBooks(d.leases[id].(state := l'.state), l')
    requires d'.leases == d.leases[id := l'] && d'.nextId == d.nextId && d'.credit == d.credit
    ensures CreditOk(d')
  {
    forall a: Address ensures CreditFor(d'.leases, d'.nextId, RecordOf(d'.credit, a), a) {
      assert CreditFor(d.leases, d.nextId, RecordOf(d.credit, a), a);
      assert DebtOf(a)(l') == DebtOf(a)(d.leases[id]);
      SumBelowUpdate(d.leases, DebtOf(a), d.nextId, id, l');
    }
  }

  lemma UpdateKeepsInv(d: Data, id: nat, l': Lease)
    requires Inv(d) && id in d.leases
    requires LeaseOk(l') && l'.leaseId == id && SameBooks(d.leases[id], l')
    ensures Inv(d.(leases := d.leases[id := l']))
  {
    SumBelowUpdate(d.leases, Locked, d.nextId, id, l');
    SumBelowUpdate(d.leases, Seized, d.nextId, id, l');
    UpdateKeepsCredit(d, d.(leases := d.leases[id := l']), id, l');
  }

  // ---- Each entry point ----

  lemma InitOk()
    ensures Inv(INITIAL)
  {
    assert SumBelow(map[], Locked, 1) == 0;
    assert SumBelow(map[], Seized, 1) == 0;
    forall a: Address ensures CreditFor(map[], 1, RecordOf(map[], a), a) {
      assert SumBelow(map[], DebtOf(a), 1) == SumBelow(map[], DebtOf(a), 0) == 0;
    }
  }

  lemma CreateKeepsInv(d: Data, now: U64, t: Terms, prorated: Option<I64>)
    requires Inv(d)
    ensures var r := CreateLease(d, now, t, prorated); r.Ok? ==> Inv(r.value)
  {
    var r := CreateLease(d, now, t, prorated);
    if r.Ok? {
      var d' := r.value;
      SumBelowAgree(d.leases, d'.leases, Locked, d.nextId);
      SumBelowAgree(d.leases, d'.leases, Seized, d.nextId);
      forall a: Address ensures CreditFor(d'.leases, d'.nextId, RecordOf(d'.credit, a), a) {
        assert CreditFor(d.leases, d.nextId, RecordOf(d.credit, a), a);
        SumBelowAgree(d.leases, d'.leases, DebtOf(a), d.nextId);
      }
    }
  }

  lemma ActivateKeepsInv(d: Data, now: U64, id: nat, lessee: Address)
    requires Inv(d)
    ensures var r := ActivateLease(d, now, id, lessee); r.Ok? ==> Inv(r.value)
  {
    var r := ActivateLease(d, now, id, lessee);
    if r.Ok? {
      var l' := r.value.leases[id];
      SumBelowUpdate(d.leases, Locked, d.nextId, id, l');
      SumBelowUpdate(d.leases, Seized, d.nextId, id, l');
      UpdateKeepsCredit(d, r.value, id, l');
    }
  }

  lemma LateFeeNonNegative(rate: U32, base: I64)
    requires base >= 0
    ensures ExactLateFee(base, rate) >= 0
  {
    assert base * rate >= 0;
  }

  // The deposit of a lease in grace is still wholly in the available balance.
  lemma AvailableCoversDeposit(d: Data, id: nat)
    requires Inv(d) && id in d.leases && d.leases[id].state == GracePeriod
    ensures d.leases[id].deposit <= d.vault.available
  {
    forall j: nat | j in d.leases ensures Seized(d.leases[j]) <= Locked(d.leases[j]) {
      assert LeaseOk(d.leases[j]);
    }
    SumBelowDominates(d.leases, Locked, Seized, d.nextId, id);
  }

  // The last part of an eviction: the state after the deduction has consistent books.
  lemma EvictionKeepsCredit(d: Data, now: U64, id: nat, l': Lease)
    requires Inv(d) && id in d.leases && d.leases[id].state == GracePeriod
    requires SameBooks(d.leases[id], l'.(arrearsProcessed := false)) && l'.arrearsProcessed
    requires FitsI64(Residual(l'))
    ensures Residual(l') == 0 ==> CreditOk(d.(leases := d.leases[id := l']))
    ensures Residual(l') > 0 ==>
              var c := UpdateCredit(d.credit, now, l'.lessee, Residual(l'), id);
              && (c.Ok? ==> CreditOk(d.(leases := d.leases[id := l'], credit := c.value)))
              && (c.Err? ==> c.error == ArithmeticOverflow)
  {
    var leases' := d.leases[id := l'];
    var c := UpdateCredit(d.credit, now, l'.lessee, Residual(l'), id);
    var credit' := if Residual(l') > 0 && c.Ok? then c.value else d.credit;
    if Residual(l') > 0 ==> c.Ok? {
      forall a: Address ensures CreditFor(leases', d.nextId, RecordOf(credit', a), a) {
        assert CreditFor(d.leases, d.nextId, RecordOf(d.credit, a), a);
        assert !Defaulted(d.leases[id], a);
        SumBelowUpdate(d.leases, DebtOf(a), d.nextId, id, l');
      }
      assert CreditOk(d.(leases := leases', credit := credit'));
    }
  }

  predicate Overdue(l: Lease, now: U64) {
    l.dunningStart.Some? && now > l.dunningStart.value + l.maxGrace
  }

  // Every total that evicting l changes stays within its machine width.
  predicate EvictionFits(d: Data, l: Lease) {
    && FitsI64(Arrears(l))
    && (Residual(l) > 0 ==>
          && FitsI64(RecordOf(d.credit, l.lessee).totalDebt + Residual(l))
          && FitsU32(RecordOf(d.credit, l.lessee).defaultCount + 1))
  }

  /**
   Eviction, exactly. An overdue lease is evicted and its deduction booked unless a total leaves its
   machine width: the branches for an uncovered deduction, a missing dunning date, an already
   processed lease and a non-positive amount cannot be taken.
   */
  lemma EvictionExact(d: Data, now: U64, id: nat)
    requires Inv(d) && id in d.leases && d.leases[id].state == GracePeriod
    requires Overdue(d.leases[id], now)
    ensures var l := d.leases[id];
            var r := CheckGracePeriodExpiry(d, now, id);
            && (r.Err? ==> r.error == ArithmeticOverflow)
            && (r.Ok? <==> EvictionFits(d, l))
            && (r.Ok? ==>
                  && r.value.leases == d.leases[id := l.(state := EvictionPending, arrearsProcessed := true)]
                  && r.value.nextId == d.nextId
                  && r.value.vault == Vault(d.vault.totalLocked, d.vault.available - Min(Arrears(l), l.deposit),
                                            d.vault.treasury + Min(Arrears(l), l.deposit))
                  && (if Residual(l) == 0 then r.value.credit == d.credit
                      else UpdateCredit(d.credit, now, l.lessee, Residual(l), id) == Ok(r.value.credit)))
  {
    var l := d.leases[id];
    assert LeaseOk(l);
    LateFeeNonNegative(l.lateFeeRate, l.rent);
    AvailableCoversDeposit(d, id);
    SeizedBelowLocked(d);
    var mid := d.(leases := d.leases[id := l.(state := EvictionPending)]);
    assert mid.leases[id := l.(state := EvictionPending, arrearsProcessed := true)] ==
           d.leases[id := l.(state := EvictionPending, arrearsProcessed := true)];
  }

  lemma ExpiryKeepsInv(d: Data, now: U64, id: nat)
    requires Inv(d) && id in d.leases && d.leases[id].state == GracePeriod
    ensures var r := CheckGracePeriodExpiry(d, now, id);
            && (r.Err? ==> r.error == ArithmeticOverflow)
            && (r.Ok? ==> Inv(r.value))
  {
    var l := d.leases[id];
    assert LeaseOk(l);
    if Overdue(l, now) {
      EvictionExact(d, now, id);
      if EvictionFits(d, l) {
        var l' := l.(state := EvictionPending, arrearsProcessed := true);
        EvictionKeepsCredit(d, now, id, l');
        SumBelowUpdate(d.leases, Locked, d.nextId, id, l');
        SumBelowUpdate(d.leases, Seized, d.nextId, id, l');
      }
    }
  }

  lemma SeizedBelowLocked(d: Data)
    requires Inv(d)
    ensures 0 <= d.vault.treasury <= d.vault.totalLocked && 0 <= d.vault.available
  {
    var zero := (l: Lease) => 0;
    forall j: nat | j in d.leases
      ensures 0 <= Seized(d.leases[j]) <= Locked(d.leases[j])
    {
      LateFeeNonNegative(d.leases[j].lateFeeRate, d.leases[j].rent);
    }
    SumBelowDominates(d.leases, Locked, Seized, d.nextId, 0);
    SumBelowDominates(d.leases, Seized, zero, d.nextId, 0);
    SumOfZeros(d.leases, d.nextId);
  }

  lemma {:induction false} SumOfZeros(leases: map<nat, Lease>, n: nat)
    ensures SumBelow(leases, (l: Lease) => 0, n) == 0
  {
    if n == 0 {
    } else {
      SumOfZeros(leases, n - 1);
    }
  }

  lemma DirectDeductionFails(d: Data, now: U64, id: nat)
    requires Inv(d)
    ensures var r := ExecuteArrearsDeduction(d, now, id);
            && r.Err?
            && r.error == (if id !in d.leases then LeaseNotFound
                           else if d.leases[id].state == EvictionPending then ArrearsAlreadyProcessed
                           else InvalidStateTransition)
  {
    if id in d.leases {
      assert LeaseOk(d.leases[id]);
    }
  }

  lemma StepKeepsInv(d: Data, c: Call)
    requires Inv(d)
    ensures Inv(Apply(d, c))
    ensures Step(d, c) != Err(EscrowVaultUnderflow)
  {
    match c.op
    case Create(t, p) => CreateKeepsInv(d, c.now, t, p);
    case Activate(id, lessee) => ActivateKeepsInv(d, c.now, id, lessee);
    case PayRent(id, amount) =>
      if Step(d, c).Ok? { UpdateKeepsInv(d, id, Apply(d, c).leases[id]); }
    case FailRent(id) =>
      if Step(d, c).Ok? { UpdateKeepsInv(d, id, Apply(d, c).leases[id]); }
    case CheckGrace(id) =>
      if id in d.leases && d.leases[id].state == GracePeriod { ExpiryKeepsInv(d, c.now, id); }
    case TriggerCheck(id, caller) =>
      if id in d.leases && d.leases[id].state == GracePeriod { ExpiryKeepsInv(d, c.now, id); }
    case Deduct(id) => DirectDeductionFails(d, c.now, id);
    case PayFiat(id, feed) =>
      if Step(d, c).Ok? { UpdateKeepsInv(d, id, Apply(d, c).leases[id]); }
    case Terminate(id, caller, refund) =>
      if Step(d, c).Ok? { UpdateKeepsInv(d, id, Apply(d, c).leases[id]); }
  }

  // ---- Payment, exactly ----

  /**
   A payment is taken exactly when it covers what is due, the rent of an active lease or the whole
   arrears of one in grace, and the running total fits; it leaves an active lease with nothing due.
   */
  lemma PaymentExact(d: Data, now: U64, id: nat, amount: I64)
    requires Inv(d) && id in d.leases
    ensures var l, r := d.leases[id], ProcessRentPayment(d, now, id, amount);
            && (r.Ok? <==>
                && (l.state == Active || l.state == GracePeriod)
                && amount >= (if l.state == Active then l.rent else Arrears(l))
                && FitsI64(l.totalPaid + amount))
            && (r.Ok? ==>
                  && OnlyLease(d, r.value, id)
                  && r.value.leases[id] == l.(state := Active, dunningStart := None, outstanding := 0, lateFees := 0,
                                              lastPayment := now, totalPaid := l.totalPaid + amount)
                  && r.value.vault == d.vault && r.value.credit == d.credit)
  {
    assert LeaseOk(d.leases[id]);
    LateFeeNonNegative(d.leases[id].lateFeeRate, d.leases[id].rent);
    PaymentDecided(d, now, id, amount);
  }

  /**
   A missed payment opens a grace window exactly on an active lease whose fee and deadline fit. Within
   the window the expiry check does nothing; after it the check evicts, unless a total overflows.
   */
  lemma GraceWindow(d: Data, now: U64, id: nat, later: U64)
    requires Inv(d) && id in d.leases
    ensures var l, r := d.leases[id], HandleRentPaymentFailure(d, now, id);
            && (r.Ok? <==> l.state == Active && FitsI64(ExactLateFee(l.rent, l.lateFeeRate))
                           && FitsU64(now + l.maxGrace))
            && (r.Ok? ==>
                  var d', check := r.value, CheckGracePeriodExpiry(r.value, later, id);
                  && d'.vault == d.vault && d'.credit == d.credit && d'.leases.Keys == d.leases.Keys
                  && (later <= now + l.maxGrace ==> check == Ok(d'))
                  && (later > now + l.maxGrace ==>
                        && (check.Ok? <==> EvictionFits(d, l))
                        && (check.Ok? ==> id in check.value.leases
                                          && check.value.leases[id].state == EvictionPending)))
  {
    var l, r := d.leases[id], HandleRentPaymentFailure(d, now, id);
    assert LeaseOk(l);
    LateFeeNonNegative(l.lateFeeRate, l.rent);
    if r.Ok? {
      UpdateKeepsInv(d, id, r.value.leases[id]);
      WindowCloses(r.value, now, id, later);
    }
  }

  // The check on a lease in grace since now.
  lemma WindowCloses(d: Data, now: U64, id: nat, later: U64)
    requires Inv(d) && id in d.leases && d.leases[id].state == GracePeriod
    requires d.leases[id].dunningStart == Some(now) && FitsU64(now + d.leases[id].maxGrace)
    ensures var l, check := d.leases[id], CheckGracePeriodExpiry(d, later, id);
            && (later <= now + l.maxGrace ==> check == Ok(d))
            && (later > now + l.maxGrace ==>
                  && (check.Ok? <==> EvictionFits(d, l))
                  && (check.Ok? ==> id in check.value.leases && check.value.leases[id].state == EvictionPending))
  {
    if later > now + d.leases[id].maxGrace {
      EvictionExact(d, later, id);
    }
  }

  // ---- Whole runs ----

  lemma {:induction false} RunKeepsInv(d: Data, calls: seq<Call>)
    requires Inv(d)
    ensures Inv(Run(d, calls))
    decreases |calls|
  {
    if calls == [] {
    } else {
      StepKeepsInv(d, calls[0]);
      RunKeepsInv(Apply(d, calls[0]), calls[1..]);
    }
  }

  /** The vault in every reachable state, and the error branches no call ever reaches from there. */
  lemma ReachableVault(calls: seq<Call>, c: Call)
    ensures var d := Run(INITIAL, calls);
            && (forall id | id in d.leases :: 1 <= id < d.nextId)
            && d.vault.totalLocked == d.vault.available + d.vault.treasury
            && d.vault.totalLocked == SumBelow(d.leases, Locked, d.nextId)
            && d.vault.treasury == SumBelow(d.leases, Seized, d.nextId)
            && 0 <= d.vault.treasury && 0 <= d.vault.available
            && Step(d, c) != Err(EscrowVaultUnderflow)
            && (c.op.Deduct? ==> Step(d, c).Err?)
            && ((c.op.CheckGrace? || c.op.TriggerCheck?) && Step(d, c).Err? ==>
                  Step(d, c).error in {LeaseNotFound, Unauthorized, ArithmeticOverflow})
  {
    var d := Run(INITIAL, calls);
    InitOk();
    RunKeepsInv(INITIAL, calls);
    SeizedBelowLocked(d);
    StepKeepsInv(d, c);
    if c.op.Deduct? {
      DirectDeductionFails(d, c.now, c.op.id);
    }
    if (c.op.CheckGrace? || c.op.TriggerCheck?) && c.op.id in d.leases && d.leases[c.op.id].state == GracePeriod {
      ExpiryKeepsInv(d, c.now, c.op.id);
    }
  }

  /** Every lessee's credit record in every reachable state. */
  lemma ReachableCredit(calls: seq<Call>, a: Address)
    ensures var d := Run(INITIAL, calls);
            var r := RecordOf(d.credit, a);
            && (forall id | id in d.leases :: 1 <= id < d.nextId)
            && r.totalDebt == SumBelow(d.leases, DebtOf(a), d.nextId)
            && r.defaultCount == |r.leaseIds| && NoDuplicates(r.leaseIds)
            && (forall id: nat :: id in r.leaseIds <==>
                  id in d.leases && d.leases[id].state == EvictionPending &&
                  d.leases[id].lessee == a && Arrears(d.leases[id]) > d.leases[id].deposit)
  {
    InitOk();
    RunKeepsInv(INITIAL, calls);
    var d := Run(INITIAL, calls);
    assert CreditFor(d.leases, d.nextId, RecordOf(d.credit, a), a);
    forall id: nat
      ensures id in RecordOf(d.credit, a).leaseIds <==>
              id in d.leases && d.leases[id].state == EvictionPending &&
              d.leases[id].lessee == a && Arrears(d.leases[id]) > d.leases[id].deposit
    {
      if id in d.leases { assert LeaseOk(d.leases[id]); }
    }
  }

  // ---- What a run can do to one lease ----

  predicate SameTerms(l: Lease, l': Lease) {
    && l'.leaseId == l.leaseId && l'.lessor == l.lessor && l'.lessee == l.lessee
    && l'.rent == l.rent && l'.deposit == l.deposit
    && l'.startDate == l.startDate && l'.endDate == l.endDate
    && l'.maxGrace == l.maxGrace && l'.lateFeeRate == l.lateFeeRate
    && l'.proratedInitialRent == l.proratedInitialRent && l'.peg == l.peg
  }

  // Pending -> Active <-> GracePeriod -> EvictionPending, Active -> Closed
  predicate Edge(s: LeaseState, s': LeaseState) {
    || s == s'
    || (s == Pending && s' == Active)
    || (s == Active && s' == GracePeriod)
    || (s == GracePeriod && s' == Active)
    || (s == GracePeriod && s' == EvictionPending)
    || (s == Active && s' == Closed)
  }

  predicate Final(l: Lease) { l.state == EvictionPending || l.state == Closed }

  // What holds between an earlier and a later state, for one lease and for the vault.
  predicate Advances(d: Data, d': Data, id: nat)
    requires id in d.leases
  {
    && id in d'.leases
    && SameTerms(d.leases[id], d'.leases[id])
    && (Final(d.leases[id]) ==> d'.leases[id] == d.leases[id])
    && d.leases[id].totalPaid <= d'.leases[id].totalPaid
    && d.vault.treasury <= d'.vault.treasury
    && d.vault.totalLocked <= d'.vault.totalLocked
  }

  lemma ExpiryOnLease(d: Data, now: U64, i: nat, id: nat)
    requires Inv(d) && id in d.leases
    ensures var r := CheckGracePeriodExpiry(d, now, i);
            r.Ok? ==> Advances(d, r.value, id) && Edge(d.leases[id].state, r.value.leases[id].state)
  {
    if i in d.leases && d.leases[i].state == GracePeriod {
      assert LeaseOk(d.leases[i]);
      LateFeeNonNegative(d.leases[i].lateFeeRate, d.leases[i].rent);
      if Overdue(d.leases[i], now) {
        EvictionExact(d, now, i);
      }
    }
  }

  lemma FiatOnLease(d: Data, now: U64, i: nat, feed: Option<PriceData>, id: nat)
    requires Inv(d) && id in d.leases
    ensures var r := ProcessFiatPeggedPayment(d, now, i, feed);
            r.Ok? ==> Advances(d, r.value, id) && d.leases[id].state == r.value.leases[id].state
  {
    if i in d.leases { assert LeaseOk(d.leases[i]); }
  }

  lemma RentOnLease(d: Data, now: U64, i: nat, amount: I64, id: nat)
    requires Inv(d) && id in d.leases
    ensures var r := ProcessRentPayment(d, now, i, amount);
            r.Ok? ==> Advances(d, r.value, id) && Edge(d.leases[id].state, r.value.leases[id].state)
  {
    if i in d.leases { assert LeaseOk(d.leases[i]); }
  }

  lemma StepOnLease(d: Data, c: Call, id: nat)
    requires Inv(d) && id in d.leases
    ensures Advances(d, Apply(d, c), id)
    ensures Edge(d.leases[id].state, Apply(d, c).leases[id].state)
  {
    match c.op
    case Create(t, p) =>
    case Activate(i, lessee) => assert i in d.leases ==> LeaseOk(d.leases[i]);
    case PayRent(i, amount) => RentOnLease(d, c.now, i, amount, id);
    case FailRent(i) =>
    case CheckGrace(i) => ExpiryOnLease(d, c.now, i, id);
    case TriggerCheck(i, caller) => ExpiryOnLease(d, c.now, i, id);
    case Deduct(i) => DirectDeductionFails(d, c.now, i);
    case PayFiat(i, feed) => FiatOnLease(d, c.now, i, feed, id);
    case Terminate(i, caller, refund) =>
  }

  /** Over any run terms never change, and an evicted or closed lease's record is frozen. */
  lemma {:induction false} RunOnLease(d: Data, calls: seq<Call>, id: nat)
    requires Inv(d) && id in d.leases
    ensures Advances(d, Run(d, calls), id)
    decreases |calls|
  {
    if calls == [] {
    } else {
      StepKeepsInv(d, calls[0]);
      StepOnLease(d, calls[0], id);
      RunOnLease(Apply(d, calls[0]), calls[1..], id);
    }
  }

  /** The state of a reachable lease fixes its dunning fields and whether it was deducted. */
  lemma ReachableLease(calls: seq<Call>, id: nat)
    requires id in Run(INITIAL, calls).leases
    ensures LeaseOk(Run(INITIAL, calls).leases[id])
  {
    InitOk();
    RunKeepsInv(INITIAL, calls);
  }
}
