/**
 Dust accounting for multi-signer refunds (contracts/leaseflow_contracts/src/dust_accounting.rs):
 the apportioning loop, and the ledger of dust per lease under splits, settlements and recoveries.
 The record lives in memory, so a failing call keeps what it changed before it failed.
 */
module DustAccounting {
  import opened Arith

  datatype DustError =
    | NegativeAmount
    | NegativeSettlementAmount
    | NegativeRecoveryAmount
    | InvalidBasisPointsSum
    | DustAccountingMismatch
    | SettlementExceedsAvailable
    | RecoveryExceedsDust
    | NoDustForLease
    | CalculationOverflow
    | Panic // an unchecked sum overflowed

  datatype Ratio = Ratio(signer: Address, bps: U32)
  datatype Share = Share(signer: Address, amount: int)
  datatype Entry = Entry(leaseId: U64, amount: int)

  function Bps(r: Ratio): int { r.bps }
  function ShareAmount(s: Share): int { s.amount }
  function EntryAmount(e: Entry): int { e.amount }
  function Itself(x: I128): int { x }

  // ---- Apportionment ----

  function Floor(total: int, bps: nat): int { total * bps / 10000 }

  function FloorShare(total: int): Ratio -> int { (r: Ratio) => Floor(total, r.bps) }

  // Every signer but the last gets the floor of its part; the last gets what is left.
  predicate Apportioned(total: int, ratios: seq<Ratio>, shares: seq<Share>) {
    && |shares| == |ratios|
    && (forall i | 0 <= i < |ratios| :: shares[i].signer == ratios[i].signer)
    && (forall i | 0 <= i < |ratios| - 1 :: shares[i].amount == Floor(total, ratios[i].bps))
    && SumBy(shares, ShareAmount) == total
  }

  // The multiplications the loop performs before the last signer fit.
  predicate ProductsFit(total: int, ratios: seq<Ratio>) {
    forall i | 0 <= i < |ratios| - 1 :: FitsI128(total * ratios[i].bps)
  }

  lemma FloorBounds(total: int, bps: nat)
    requires total >= 0
    ensures 0 <= Floor(total, bps) && 10000 * Floor(total, bps) <= total * bps <= 10000 * Floor(total, bps) + 9999
  {
    assert total * bps >= 0;
  }

  // Floors of the first signers stay within their exact entitlement, short by under one unit each.
  lemma {:induction false} FloorsBelow(total: int, ratios: seq<Ratio>)
    requires total >= 0
    ensures 0 <= SumBy(ratios, FloorShare(total))
    ensures 10000 * SumBy(ratios, FloorShare(total)) <= total * SumBy(ratios, Bps)
            <= 10000 * SumBy(ratios, FloorShare(total)) + 9999 * |ratios|
  {
    if ratios == [] {
    } else {
      FloorsBelow(total, ratios[1..]);
      FloorBounds(total, ratios[0].bps);
      var rest := SumBy(ratios[1..], Bps);
      assert total * (ratios[0].bps + rest) == total * ratios[0].bps + total * rest;
    }
  }

  lemma {:induction false} BpsNonNegative(ratios: seq<Ratio>)
    ensures SumBy(ratios, Bps) >= 0
  {
    SumByNonNegative(ratios, Bps);
  }

  lemma FloorsWithinTotal(total: int, ratios: seq<Ratio>)
    requires total >= 0 && SumBy(ratios, Bps) <= 10000
    ensures 0 <= SumBy(ratios, FloorShare(total)) <= total
  {
    FloorsBelow(total, ratios);
    ScaleMonotone(total, SumBy(ratios, Bps), 10000);
  }

  /**
   The share loop: it fails exactly when a product before the last signer overflows, and otherwise
   hands out the total to the last unit, in non-negative shares.
   */
  method SplitShares(total: I128, ratios: seq<Ratio>) returns (r: Result<seq<Share>, DustError>)
    requires total >= 0 && SumBy(ratios, Bps) <= 10000 && ratios != []
    ensures r.Ok? <==> ProductsFit(total, ratios)
    ensures r.Err? ==> r.error == CalculationOverflow
    ensures r.Ok? ==> Apportioned(total, ratios, r.value)
    ensures r.Ok? ==> forall i | 0 <= i < |ratios| :: r.value[i].amount >= 0
  {
    var shares: seq<Share> := [];
    var handedOut: int := 0;
    for i := 0 to |ratios|
      invariant |shares| == i && handedOut == SumBy(shares, ShareAmount)
      invariant forall k | 0 <= k < i :: shares[k].signer == ratios[k].signer && shares[k].amount >= 0
      invariant forall k | 0 <= k < i && k < |ratios| - 1 ::
                  FitsI128(total * ratios[k].bps) && shares[k].amount == Floor(total, ratios[k].bps)
      invariant if i < |ratios| then handedOut == SumBy(ratios[..i], FloorShare(total)) else handedOut == total
    {
      PrefixBps(ratios, i);
      FloorsWithinTotal(total, ratios[..i]);
      var share;
      if i == |ratios| - 1 {
        share := total - handedOut;
      } else {
        if !FitsI128(total * ratios[i].bps) { return Err(CalculationOverflow); }
        share := Floor(total, ratios[i].bps);
        FloorBounds(total, ratios[i].bps);
        assert ratios[..i + 1] == ratios[..i] + [ratios[i]];
        SumByAppend(ratios[..i], [ratios[i]], FloorShare(total));
      }
      SumByAppend(shares, [Share(ratios[i].signer, share)], ShareAmount);
      shares := shares + [Share(ratios[i].signer, share)];
      handedOut := handedOut + share;
    }
    return Ok(shares);
  }

  lemma PrefixBps(ratios: seq<Ratio>, i: nat)
    requires i <= |ratios|
    ensures SumBy(ratios[..i], Bps) <= SumBy(ratios, Bps)
  {
    assert ratios == ratios[..i] + ratios[i..];
    SumByAppend(ratios[..i], ratios[i..], Bps);
    BpsNonNegative(ratios[i..]);
  }

  /**
   The last signer's share against its exact entitlement, counting the unassigned basis points as its
   own: never less, and more by under one unit per other signer.
   */
  lemma {:induction false} LastShareBounds(total: int, ratios: seq<Ratio>, shares: seq<Share>)
    requires total >= 0 && ratios != [] && SumBy(ratios, Bps) <= 10000 && Apportioned(total, ratios, shares)
    ensures var n := |ratios|;
            var entitled := total * (ratios[n - 1].bps + 10000 - SumBy(ratios, Bps));
            0 <= 10000 * shares[n - 1].amount - entitled <= 9999 * (n - 1)
  {
    var n := |ratios|;
    var others := ratios[..n - 1];
    assert ratios == others + [ratios[n - 1]];
    SumByAppend(others, [ratios[n - 1]], Bps);
    assert shares == shares[..n - 1] + [shares[n - 1]];
    SumByAppend(shares[..n - 1], [shares[n - 1]], ShareAmount);
    SharesAreFloors(total, others, shares[..n - 1]);
    FloorsBelow(total, others);
    RemainderBounds(total, SumBy(others, FloorShare(total)), SumBy(others, Bps), n - 1);
    assert ratios[n - 1].bps as int + 10000 - SumBy(ratios, Bps) == 10000 - SumBy(others, Bps);
  }

  lemma RemainderBounds(total: int, floors: int, bps: int, n: nat)
    requires 10000 * floors <= total * bps <= 10000 * floors + 9999 * n
    ensures 0 <= 10000 * (total - floors) - total * (10000 - bps) <= 9999 * n
  {
  }

  lemma {:induction false} SharesAreFloors(total: int, ratios: seq<Ratio>, shares: seq<Share>)
    requires |shares| == |ratios| && forall i | 0 <= i < |ratios| :: shares[i].amount == Floor(total, ratios[i].bps)
    ensures SumBy(shares, ShareAmount) == SumBy(ratios, FloorShare(total))
  {
    if ratios == [] {
    } else {
      SharesAreFloors(total, ratios[1..], shares[1..]);
    }
  }

  // ---- The ledger ----

  datatype Ledger = Ledger(
    total: I128, entries: seq<Entry>, signerDust: seq<Share>, recovered: I128, operations: U64)

  const EMPTY: Ledger := Ledger(0, [], [], 0, 0)

  // find(|(s, _)| s == signer)
  function FirstBps(ratios: seq<Ratio>, signer: Address): nat {
    if ratios == [] then 0
    else if ratios[0].signer == signer then ratios[0].bps
    else FirstBps(ratios[1..], signer)
  }

  // The shares that the loop hands out.
  function SharesOf(total: int, ratios: seq<Ratio>): seq<Share> {
    var n := |ratios|;
    seq(n, i requires 0 <= i < n =>
      Share(ratios[i].signer,
            if i < n - 1 then Floor(total, ratios[i].bps) else total - SumBy(ratios[..n - 1], FloorShare(total))))
  }

  lemma SharesOfExact(total: int, ratios: seq<Ratio>, shares: seq<Share>)
    requires Apportioned(total, ratios, shares) && ratios != []
    ensures shares == SharesOf(total, ratios)
  {
    var n := |ratios|;
    assert shares == shares[..n - 1] + [shares[n - 1]];
    SumByAppend(shares[..n - 1], [shares[n - 1]], ShareAmount);
    SharesAreFloors(total, ratios[..n - 1], shares[..n - 1]);
  }

  lemma {:induction false} SharesOfApportion(total: int, ratios: seq<Ratio>)
    requires ratios != []
    ensures Apportioned(total, ratios, SharesOf(total, ratios))
  {
    var n, shares := |ratios|, SharesOf(total, ratios);
    assert shares == shares[..n - 1] + [shares[n - 1]];
    SumByAppend(shares[..n - 1], [shares[n - 1]], ShareAmount);
    SharesAreFloors(total, ratios[..n - 1], shares[..n - 1]);
  }

  // What the second pass takes for a signer's share: that of the first ratio listed for it.
  function Expected(total: int, ratios: seq<Ratio>, signer: Address): int { Floor(total, FirstBps(ratios, signer)) }

  // The second pass: records positive differences, up to the first product that overflows.
  function SignerPass(total: int, ratios: seq<Ratio>, shares: seq<Share>): (seq<Share>, bool) {
    if shares == [] then ([], true)
    else if !FitsI128(total * FirstBps(ratios, shares[0].signer)) then ([], false)
    else
      var (rest, ok) := SignerPass(total, ratios, shares[1..]);
      (SignerDust(total, ratios, shares[0]) + rest, ok)
  }

  function SignerDust(total: int, ratios: seq<Ratio>, share: Share): seq<Share> {
    var dust := Expected(total, ratios, share.signer) - share.amount;
    if dust > 0 then [Share(share.signer, dust)] else []
  }

  // calculate_multi_signer_dust. Its dust is the difference of two equal floors, so it books zero.
  function SplitStep(l: Ledger, total: I128, ratios: seq<Ratio>, leaseId: U64): (Ledger, Result<(), DustError>) {
    if total < 0 then (l, Err(NegativeAmount))
    else if !FitsU32(SumBy(ratios, Bps)) then (l, Err(Panic))
    else if SumBy(ratios, Bps) > 10000 then (l, Err(InvalidBasisPointsSum))
    else if !ProductsFit(total, ratios) then (l, Err(CalculationOverflow))
    else if ratios == [] && total != 0 then (l, Err(DustAccountingMismatch))
    else if !FitsU64(l.operations + 1) then (l.(entries := l.entries + [Entry(leaseId, 0)]), Err(Panic))
    else
      var (dust, ok) := SignerPass(total, ratios, SharesOf(total, ratios));
      (l.(entries := l.entries + [Entry(leaseId, 0)], signerDust := l.signerDust + dust,
          operations := l.operations + 1),
       if ok then Ok(()) else Err(CalculationOverflow))
  }

  // calculate_partial_settlement_dust
  function SettleStep(l: Ledger, available: I128, amounts: seq<I128>, leaseId: U64): (Ledger, Result<(), DustError>) {
    if available < 0 then (l, Err(NegativeAmount))
    else if exists i :: 0 <= i < |amounts| && amounts[i] < 0 then (l, Err(NegativeSettlementAmount))
    else if !FitsI128(SumBy(amounts, Itself)) then (l, Err(Panic))
    else if SumBy(amounts, Itself) > available then (l, Err(SettlementExceedsAvailable))
    else
      var dust := available - SumBy(amounts, Itself);
      if !FitsI128(dust) then (l, Err(Panic))
      else if !FitsI128(l.total + dust) then (l, Err(CalculationOverflow))
      else
        var l' := l.(total := l.total + dust, entries := l.entries + [Entry(leaseId, dust)]);
        if !FitsU64(l.operations + 1) then (l', Err(Panic))
        else (l'.(operations := l.operations + 1), Ok(()))
  }

  // position(|(id, _)| id == leaseId)
  function Position(entries: seq<Entry>, leaseId: U64): (p: Option<nat>)
    ensures p.Some? ==> p.value < |entries| && entries[p.value].leaseId == leaseId
    ensures p.Some? ==> forall i | 0 <= i < p.value :: entries[i].leaseId != leaseId
    ensures p.None? ==> forall i | 0 <= i < |entries| :: entries[i].leaseId != leaseId
  {
    if entries == [] then None
    else if entries[0].leaseId == leaseId then Some(0)
    else
      var p := Position(entries[1..], leaseId);
      assert forall i | 0 < i < |entries| :: entries[i] == entries[1..][i - 1];
      if p.Some? then Some(p.value + 1) else None
  }

  // recover_dust
  function RecoverStep(l: Ledger, leaseId: U64, amount: I128): (Ledger, Result<(), DustError>) {
    if amount < 0 then (l, Err(NegativeRecoveryAmount))
    else
      var p := Position(l.entries, leaseId);
      if p.None? then (l, Err(NoDustForLease))
      else
        var dust := l.entries[p.value].amount;
        if amount > dust then (l, Err(RecoveryExceedsDust))
        else if !FitsI128(l.total - amount) then (l, Err(CalculationOverflow))
        else if !FitsI128(l.recovered + amount) then (l.(total := l.total - amount), Err(CalculationOverflow))
        else
          var entries := if dust == amount then l.entries[..p.value] + l.entries[p.value + 1..]
                         else l.entries[p.value := Entry(leaseId, dust - amount)];
          (l.(total := l.total - amount, recovered := l.recovered + amount, entries := entries), Ok(()))
  }

  datatype Op =
    | Split(total: I128, ratios: seq<Ratio>, leaseId: U64)
    | Settle(available: I128, amounts: seq<I128>, leaseId: U64)
    | Recover(leaseId: U64, amount: I128)

  function Step(l: Ledger, op: Op): (Ledger, Result<(), DustError>) {
    match op
    case Split(t, rs, id) => SplitStep(l, t, rs, id)
    case Settle(a, xs, id) => SettleStep(l, a, xs, id)
    case Recover(id, a) => RecoverStep(l, id, a)
  }

  // A request that pays out no more than is available.
  predicate LegalSettlement(available: I128, amounts: seq<I128>) {
    && available >= 0 && (forall i | 0 <= i < |amounts| :: amounts[i] >= 0)
    && SumBy(amounts, Itself) <= available
  }

  // Dust that a call asks to book: what a legal settlement leaves over, if the total can take it.
  function Booked(l: Ledger, op: Op): int {
    if op.Settle? && LegalSettlement(op.available, op.amounts)
       && FitsI128(l.total + op.available - SumBy(op.amounts, Itself))
    then op.available - SumBy(op.amounts, Itself)
    else 0
  }

  // ---- What each call answers and changes ----

  /** A split adds an entry of zero for the lease and the signers' dust, and counts itself; the total stays. */
  lemma SplitExact(l: Ledger, total: I128, ratios: seq<Ratio>, leaseId: U64)
    ensures var (l', r) := SplitStep(l, total, ratios, leaseId);
            var bps := SumBy(ratios, Bps);
            var legal := total >= 0 && bps <= 10000 && ProductsFit(total, ratios) && (ratios == [] ==> total == 0);
            && (r == Err(NegativeAmount) <==> total < 0)
            && (r == Err(InvalidBasisPointsSum) <==> total >= 0 && 10000 < bps && FitsU32(bps))
            && (r == Err(DustAccountingMismatch) <==> total > 0 && ratios == [])
            && (r.Ok? ==> legal && FitsU64(l.operations + 1))
            && (legal && FitsU64(l.operations + 1) ==>
                  && (r.Ok? <==> SignerPass(total, ratios, SharesOf(total, ratios)).1)
                  && l'.operations == l.operations + 1
                  && l'.signerDust == l.signerDust + SignerPass(total, ratios, SharesOf(total, ratios)).0)
            && (legal && !FitsU64(l.operations + 1) ==> r == Err(Panic))
            && (total >= 0 && !FitsU32(bps) ==> r == Err(Panic))
            && (total >= 0 && bps <= 10000 && !ProductsFit(total, ratios) ==> r == Err(CalculationOverflow))
            && (if legal then l'.entries == l.entries + [Entry(leaseId, 0)] else l' == l)
            && l'.total == l.total && l'.recovered == l.recovered
  {
    BpsNonNegative(ratios);
  }

  /** A legal settlement books what it leaves over under its lease and in the total, and counts itself. */
  lemma SettleExact(l: Ledger, available: I128, amounts: seq<I128>, leaseId: U64)
    ensures var (l', r) := SettleStep(l, available, amounts, leaseId);
            var left := available - SumBy(amounts, Itself);
            var nonNegative := forall i | 0 <= i < |amounts| :: amounts[i] >= 0;
            && (r == Err(NegativeAmount) <==> available < 0)
            && (r == Err(NegativeSettlementAmount) <==> available >= 0 && !nonNegative)
            && (r == Err(SettlementExceedsAvailable) <==>
                available >= 0 && nonNegative && left < 0 && FitsI128(SumBy(amounts, Itself)))
            && (r.Ok? <==>
                LegalSettlement(available, amounts) && FitsI128(l.total + left) && FitsU64(l.operations + 1))
            && (available >= 0 && nonNegative && !FitsI128(SumBy(amounts, Itself)) ==> r == Err(Panic))
            && (LegalSettlement(available, amounts) && r.Err? ==>
                  r.error == if FitsI128(l.total + left) then Panic else CalculationOverflow)
            && l'.operations == (if r.Ok? then l.operations + 1 else l.operations)
            && (if LegalSettlement(available, amounts) && FitsI128(l.total + left)
                then && l'.total == l.total + left && l'.entries == l.entries + [Entry(leaseId, left)]
                     && l'.recovered == l.recovered && l'.signerDust == l.signerDust
                else l' == l)
  {
    if available >= 0 && forall i | 0 <= i < |amounts| :: amounts[i] >= 0 {
      SumByNonNegative(amounts, Itself);
    }
  }

  // From entries to entries', the i-th is lowered by amount, or dropped when nothing is left of it.
  predicate Lowered(entries: seq<Entry>, entries': seq<Entry>, i: nat, amount: int)
    requires i < |entries|
  {
    if entries[i].amount == amount
    then && |entries'| == |entries| - 1 && (forall k | 0 <= k < i :: entries'[k] == entries[k])
         && (forall k | i < k < |entries| :: entries'[k - 1] == entries[k])
    else && |entries'| == |entries| && (forall k | 0 <= k < |entries| && k != i :: entries'[k] == entries[k])
         && entries'[i] == Entry(entries[i].leaseId, entries[i].amount - amount)
  }

  // The entry is the first of its lease.
  predicate FirstOf(entries: seq<Entry>, leaseId: U64, i: nat) {
    i < |entries| && entries[i].leaseId == leaseId && forall k | 0 <= k < i :: entries[k].leaseId != leaseId
  }

  /**
   A recovery takes at most the lease's first entry: it lowers that entry and the total and raises the
   running total of recoveries, all by the amount; or, when only the last overflows, just the total.
   */
  lemma RecoverExact(l: Ledger, leaseId: U64, amount: I128, i: nat)
    requires FirstOf(l.entries, leaseId, i)
    ensures var (l', r) := RecoverStep(l, leaseId, amount);
            var covered := 0 <= amount <= l.entries[i].amount && FitsI128(l.total - amount);
            && (r == Err(NegativeRecoveryAmount) <==> amount < 0)
            && (r == Err(RecoveryExceedsDust) <==> 0 <= amount && amount > l.entries[i].amount)
            && r != Err(NoDustForLease)
            && (r.Ok? <==> covered && FitsI128(l.recovered + amount))
            && l'.operations == l.operations && l'.signerDust == l.signerDust
            && (if covered then l'.total == l.total - amount else l' == l)
            && (if r.Ok? then l'.recovered == l.recovered + amount && Lowered(l.entries, l'.entries, i, amount)
                else l'.recovered == l.recovered && l'.entries == l.entries)
  {
    var p := Position(l.entries, leaseId);
    assert p == Some(i) by {
      assert p.Some? && (p.value < i || i < p.value || p.value == i);
    }
  }

  lemma NothingToRecover(l: Ledger, leaseId: U64, amount: I128)
    requires forall k | 0 <= k < |l.entries| :: l.entries[k].leaseId != leaseId
    ensures RecoverStep(l, leaseId, amount) == (l, Err(if amount < 0 then NegativeRecoveryAmount else NoDustForLease))
  {
  }

  // ---- Signer dust ----

  predicate DistinctSigners(ratios: seq<Ratio>) {
    forall i, j | 0 <= i < j < |ratios| :: ratios[i].signer != ratios[j].signer
  }

  // A share below what the second pass expects.
  predicate Short(total: int, ratios: seq<Ratio>, share: Share) {
    share.amount < Expected(total, ratios, share.signer)
  }

  lemma {:induction false} SignerPassExact(total: int, ratios: seq<Ratio>, shares: seq<Share>)
    ensures var (dust, ok) := SignerPass(total, ratios, shares);
            && (ok <==> forall i | 0 <= i < |shares| :: FitsI128(total * FirstBps(ratios, shares[i].signer)))
            && (ok ==> (dust != [] <==> exists i :: 0 <= i < |shares| && Short(total, ratios, shares[i])))
            && (dust != [] ==> exists i :: 0 <= i < |shares| && Short(total, ratios, shares[i]))
  {
    if shares == [] {
    } else {
      SignerPassExact(total, ratios, shares[1..]);
      assert forall i | 0 < i < |shares| :: shares[i] == shares[1..][i - 1];
      assert forall i | 0 <= i < |shares| - 1 :: shares[1..][i] == shares[i + 1];
    }
  }

  // The first ratio listed for a signer is the one found.
  lemma {:induction false} FirstBpsExact(ratios: seq<Ratio>, i: nat)
    requires i < |ratios| && forall k | 0 <= k < i :: ratios[k].signer != ratios[i].signer
    ensures FirstBps(ratios, ratios[i].signer) == ratios[i].bps
  {
    if i == 0 {
    } else {
      assert ratios[0].signer != ratios[i].signer;
      FirstBpsExact(ratios[1..], i - 1);
    }
  }

  // Each record is a listing's signer with what its share is short.
  lemma {:induction false} RecordedDust(total: int, ratios: seq<Ratio>, shares: seq<Share>, k: nat)
    requires k < |SignerPass(total, ratios, shares).0|
    ensures exists i :: && 0 <= i < |shares| && Short(total, ratios, shares[i])
                        && SignerPass(total, ratios, shares).0[k] ==
                           Share(shares[i].signer, Expected(total, ratios, shares[i].signer) - shares[i].amount)
  {
    var n := |SignerDust(total, ratios, shares[0])|;
    if k >= n {
      RecordedDust(total, ratios, shares[1..], k - n);
      var i :| && 0 <= i < |shares| - 1 && Short(total, ratios, shares[1..][i])
               && SignerPass(total, ratios, shares[1..]).0[k - n] ==
                  Share(shares[1..][i].signer, Expected(total, ratios, shares[1..][i].signer) - shares[1..][i].amount);
      assert shares[1..][i] == shares[i + 1];
    }
  }

  // No share falls short of its own ratio's floor.
  lemma {:induction false} ShareCoversFloor(total: int, ratios: seq<Ratio>, shares: seq<Share>, i: nat)
    requires total >= 0 && SumBy(ratios, Bps) <= 10000 && Apportioned(total, ratios, shares) && i < |ratios|
    ensures Floor(total, ratios[i].bps) <= shares[i].amount
  {
    if i == |ratios| - 1 {
      LastShareBounds(total, ratios, shares);
      FloorBounds(total, ratios[i].bps);
      SpareCovers(total, ratios[i].bps, 10000 - SumBy(ratios, Bps), Floor(total, ratios[i].bps), shares[i].amount);
    }
  }

  lemma SpareCovers(total: nat, bps: int, spare: nat, floor: int, share: int)
    requires 10000 * floor <= total * bps && total * (bps + spare) <= 10000 * share
    ensures floor <= share
  {
    assert total * (bps + spare) == total * bps + total * spare;
  }

  /**
   Signer dust is recorded exactly where a listing's share is below the floor of its signer's first
   listing, up to the first product that overflows: only for a signer listed again with another
   ratio, and so never in a split among distinct signers.
   */
  lemma {:induction false} SignerDustExact(total: I128, ratios: seq<Ratio>)
    requires total >= 0 && ratios != [] && SumBy(ratios, Bps) <= 10000
    ensures var shares := SharesOf(total, ratios);
            var (dust, ok) := SignerPass(total, ratios, shares);
            && (ok <==> forall i | 0 <= i < |ratios| :: FitsI128(total * FirstBps(ratios, ratios[i].signer)))
            && (ok ==> (dust != [] <==> exists j :: 0 <= j < |ratios| && Short(total, ratios, shares[j])))
            && (dust != [] ==> exists j :: 0 <= j < |ratios| && Short(total, ratios, shares[j]))
    ensures var shares := SharesOf(total, ratios);
            forall j | 0 <= j < |ratios| && Short(total, ratios, shares[j]) ::
              FirstBps(ratios, ratios[j].signer) != ratios[j].bps && !DistinctSigners(ratios)
    ensures DistinctSigners(ratios) ==> SignerPass(total, ratios, SharesOf(total, ratios)).0 == []
  {
    var shares := SharesOf(total, ratios);
    SharesOfApportion(total, ratios);
    SignerPassExact(total, ratios, shares);
    forall j | 0 <= j < |ratios| && Short(total, ratios, shares[j])
      ensures FirstBps(ratios, ratios[j].signer) != ratios[j].bps && !DistinctSigners(ratios)
    {
      ShareCoversFloor(total, ratios, shares, j);
      if DistinctSigners(ratios) {
        FirstBpsExact(ratios, j);
        assert false;
      }
    }
  }

  // Signer 4 is listed with 90% and again with 10%: 8000 units of dust are recorded, where none is left.
  lemma DuplicateSignerDust()
    ensures var ratios := [Ratio(4, 9000), Ratio(4, 1000)];
            && SharesOf(10000, ratios) == [Share(4, 9000), Share(4, 1000)]
            && Step(EMPTY, Split(10000, ratios, 7)) == (Ledger(0, [Entry(7, 0)], [Share(4, 8000)], 0, 1), Ok(()))
  {
    var ratios := [Ratio(4, 9000), Ratio(4, 1000)];
    var shares := [Share(4, 9000), Share(4, 1000)];
    assert ratios[..1] == [Ratio(4, 9000)];
    assert SumBy(ratios[..1], FloorShare(10000)) == 9000;
    assert SharesOf(10000, ratios) == shares;
    assert SumBy(ratios, Bps) == 9000 + SumBy([Ratio(4, 1000)], Bps) == 10000;
    assert shares[1..] == [Share(4, 1000)] && shares[1..][1..] == [];
    assert FirstBps(ratios, 4) == 9000;
    assert SignerDust(10000, ratios, shares[1]) == [Share(4, 8000)];
    assert SignerPass(10000, ratios, shares[1..]).0 == [Share(4, 8000)] + [];
    assert SignerPass(10000, ratios, shares).0 == [] + [Share(4, 8000)];
    SignerPassExact(10000, ratios, shares);
    assert ProductsFit(10000, ratios);
    assert [] + [Entry(7, 0)] == [Entry(7, 0)] && [] + [Share(4, 8000)] == [Share(4, 8000)];
  }

  // ---- What the ledger keeps ----

  // No entry and no running total is negative.
  predicate Sane(l: Ledger) {
    l.recovered >= 0 && forall i | 0 <= i < |l.entries| :: l.entries[i].amount >= 0
  }

  function EntrySum(l: Ledger): int { SumBy(l.entries, EntryAmount) }

  predicate Balanced(l: Ledger) { Sane(l) && l.total == EntrySum(l) }

  // A legal recovery whose running total leaves 128 bits: the call fails half way.
  predicate RecoveryOverflows(l: Ledger, op: Op) {
    && op.Recover? && op.amount > 0
    && var p := Position(l.entries, op.leaseId);
       p.Some? && op.amount <= l.entries[p.value].amount && !FitsI128(l.recovered + op.amount)
  }

  // Dust taken from the total and from nowhere else, by a recovery that fails half way.
  function Lost(l: Ledger, op: Op): nat {
    if RecoveryOverflows(l, op) && FitsI128(l.total - op.amount) then op.amount else 0
  }

  // The step's account of entries, recovered dust and total, whether the ledger is balanced or not.
  predicate Accounted(l: Ledger, l': Ledger, booked: int, lost: int) {
    && Sane(l') && EntrySum(l') + l'.recovered == EntrySum(l) + l.recovered + booked
    && EntrySum(l') - l'.total == EntrySum(l) - l.total + lost
  }

  lemma RecoverAccounted(l: Ledger, leaseId: U64, amount: I128)
    requires Sane(l)
    ensures Accounted(l, RecoverStep(l, leaseId, amount).0, 0, Lost(l, Recover(leaseId, amount)))
  {
    var p := Position(l.entries, leaseId);
    if amount >= 0 && p.Some? && amount <= l.entries[p.value].amount {
      TakeFromEntry(l.entries, p.value, Entry(leaseId, l.entries[p.value].amount - amount));
    }
  }

  lemma RecoverKeepsBalance(l: Ledger, leaseId: U64, amount: I128)
    requires Balanced(l)
    ensures var l' := RecoverStep(l, leaseId, amount).0;
            && (Balanced(l') <==> !RecoveryOverflows(l, Recover(leaseId, amount)))
            && (Balanced(l') ==> l'.total + l'.recovered == l.total + l.recovered)
  {
    RecoverAccounted(l, leaseId, amount);
    OverflowLoses(l, Recover(leaseId, amount));
  }

  // A balanced ledger covers every legal recovery, so one that overflows does lose dust.
  lemma OverflowLoses(l: Ledger, op: Op)
    requires Balanced(l) && op.Recover?
    ensures RecoveryOverflows(l, op) <==> Lost(l, op) > 0
  {
    var p := Position(l.entries, op.leaseId);
    if p.Some? {
      TakeFromEntry(l.entries, p.value, l.entries[p.value]);
    }
  }

  // Lowering one entry, or dropping it, lowers the sum by as much.
  lemma TakeFromEntry(entries: seq<Entry>, i: nat, e: Entry)
    requires i < |entries|
    ensures SumBy(entries[i := e], EntryAmount) == SumBy(entries, EntryAmount) - entries[i].amount + e.amount
    ensures SumBy(entries[..i] + entries[i + 1..], EntryAmount) == SumBy(entries, EntryAmount) - entries[i].amount
    ensures (forall k | 0 <= k < |entries| :: entries[k].amount >= 0) ==>
              entries[i].amount <= SumBy(entries, EntryAmount)
  {
    var entries' := entries[i := e];
    SumByRemoveAt(entries, EntryAmount, i);
    SumByRemoveAt(entries', EntryAmount, i);
    assert entries'[..i] + entries'[i + 1..] == entries[..i] + entries[i + 1..];
    if forall k | 0 <= k < |entries| :: entries[k].amount >= 0 {
      SumByNonNegative(entries[..i] + entries[i + 1..], EntryAmount);
    }
  }

  lemma SettleAccounted(l: Ledger, available: I128, amounts: seq<I128>, leaseId: U64)
    requires Sane(l)
    ensures var l' := SettleStep(l, available, amounts, leaseId).0;
            && Accounted(l, l', Booked(l, Settle(available, amounts, leaseId)), 0)
            && l'.recovered == l.recovered && l'.total >= l.total
  {
    if LegalSettlement(available, amounts) {
      SumByNonNegative(amounts, Itself);
      var dust := available - SumBy(amounts, Itself);
      SumByAppend(l.entries, [Entry(leaseId, dust)], EntryAmount);
      assert SumBy([Entry(leaseId, dust)], EntryAmount) == dust;
    }
  }

  lemma SplitAccounted(l: Ledger, total: I128, ratios: seq<Ratio>, leaseId: U64)
    requires Sane(l)
    ensures var l' := SplitStep(l, total, ratios, leaseId).0;
            Accounted(l, l', 0, 0) && l'.recovered == l.recovered && l'.total == l.total
  {
    SumByAppend(l.entries, [Entry(leaseId, 0)], EntryAmount);
    assert SumBy([Entry(leaseId, 0)], EntryAmount) == 0;
  }

  /**
   What a call does to the books, balanced or not: entries and recovered dust together grow by what
   was asked to be booked, and the total falls behind the entries by what is lost.
   */
  lemma StepAccounted(l: Ledger, op: Op)
    requires Sane(l)
    ensures Accounted(l, Step(l, op).0, Booked(l, op), Lost(l, op))
  {
    match op
    case Split(t, rs, id) => SplitAccounted(l, t, rs, id);
    case Settle(a, xs, id) => SettleAccounted(l, a, xs, id);
    case Recover(id, a) => RecoverAccounted(l, id, a);
  }

  /**
   One call on a balanced ledger leaves it balanced exactly when it is not an overflowing recovery,
   and then remaining and recovered dust together grow by what was asked to be booked.
   */
  lemma StepKeepsBalance(l: Ledger, op: Op)
    requires Balanced(l)
    ensures var l' := Step(l, op).0;
            && (Balanced(l') <==> !RecoveryOverflows(l, op))
            && (Balanced(l') ==> l'.total + l'.recovered == l.total + l.recovered + Booked(l, op))
            && (RecoveryOverflows(l, op) ==> Step(l, op).1 == Err(CalculationOverflow))
  {
    StepAccounted(l, op);
    if op.Recover? {
      OverflowLoses(l, op);
    }
  }

  function Run(l: Ledger, ops: seq<Op>): Ledger
    decreases |ops|
  {
    if ops == [] then l else Run(Step(l, ops[0]).0, ops[1..])
  }

  function TotalBooked(l: Ledger, ops: seq<Op>): int
    decreases |ops|
  {
    if ops == [] then 0 else Booked(l, ops[0]) + TotalBooked(Step(l, ops[0]).0, ops[1..])
  }

  function TotalLost(l: Ledger, ops: seq<Op>): nat
    decreases |ops|
  {
    if ops == [] then 0 else Lost(l, ops[0]) + TotalLost(Step(l, ops[0]).0, ops[1..])
  }

  predicate NoRecoveryOverflows(l: Ledger, ops: seq<Op>)
    decreases |ops|
  {
    ops == [] || (!RecoveryOverflows(l, ops[0]) && NoRecoveryOverflows(Step(l, ops[0]).0, ops[1..]))
  }

  /**
   The books over every run: the entries and all recovered dust are what was there and what was asked
   to be booked, and the total differs from the entries by exactly what overflowing recoveries lost.
   */
  lemma {:induction false} RunAccounted(l: Ledger, ops: seq<Op>)
    requires Sane(l)
    ensures Accounted(l, Run(l, ops), TotalBooked(l, ops), TotalLost(l, ops))
    decreases |ops|
  {
    if ops == [] {
    } else {
      StepAccounted(l, ops[0]);
      RunAccounted(Step(l, ops[0]).0, ops[1..]);
    }
  }

  lemma {:induction false} LostExactly(l: Ledger, ops: seq<Op>)
    requires Balanced(l)
    ensures TotalLost(l, ops) == 0 <==> NoRecoveryOverflows(l, ops)
    decreases |ops|
  {
    if ops == [] {
    } else {
      StepKeepsBalance(l, ops[0]);
      if ops[0].Recover? {
        OverflowLoses(l, ops[0]);
      }
      if !RecoveryOverflows(l, ops[0]) {
        LostExactly(Step(l, ops[0]).0, ops[1..]);
      }
    }
  }

  /**
   Conservation over whole runs, of any length and amounts: a balanced ledger is balanced after a run
   exactly when no step was an overflowing recovery, and then remaining plus recovered dust is what
   was there before and everything booked.
   */
  lemma RunConservesDust(l: Ledger, ops: seq<Op>)
    requires Balanced(l)
    ensures var l' := Run(l, ops);
            && (Balanced(l') <==> NoRecoveryOverflows(l, ops))
            && (Balanced(l') ==> l'.total + l'.recovered == l.total + l.recovered + TotalBooked(l, ops))
  {
    RunAccounted(l, ops);
    LostExactly(l, ops);
  }

  // Four calls on a new ledger: the last fails, and remaining dust then disagrees with the entries.
  lemma OverflowingRecovery()
    ensures var ops := [Settle(I128_MAX, [], 7), Recover(7, I128_MAX), Settle(1, [], 7)];
            Balanced(Run(EMPTY, ops)) && !Balanced(Step(Run(EMPTY, ops), Recover(7, 1)).0)
  {
    var l := Ledger(1, [Entry(7, 1)], [], I128_MAX, 2);
    RefilledLedger(I128_MAX, 7);
    assert SumBy(l.entries, EntryAmount) == 1 + SumBy([], EntryAmount);
    assert Position(l.entries, 7) == Some(0);
    StepKeepsBalance(l, Recover(7, 1));
  }

  lemma RefilledLedger(amount: I128, id: U64)
    requires amount >= 0
    ensures Run(EMPTY, [Settle(amount, [], id), Recover(id, amount), Settle(1, [], id)]) ==
            Ledger(1, [Entry(id, 1)], [], amount, 2)
  {
    FillAndEmpty(amount, id);
    SettleOne(EMPTY.(recovered := amount, operations := 1), 1, id);
    RunThree(EMPTY, [Settle(amount, [], id), Recover(id, amount), Settle(1, [], id)]);
  }

  lemma RunThree(l: Ledger, ops: seq<Op>)
    requires |ops| == 3
    ensures Run(l, ops) == Step(Step(Step(l, ops[0]).0, ops[1]).0, ops[2]).0
  {
    var l' := Step(l, ops[0]).0;
    assert Run(l', ops[1..]) == Run(Step(l', ops[1]).0, ops[1..][1..]);
    assert ops[1..][1..] == [ops[2]];
  }

  lemma SettleOne(l: Ledger, available: I128, id: U64)
    requires available >= 0 && FitsI128(l.total + available) && FitsU64(l.operations + 1)
    ensures SettleStep(l, available, [], id).0 ==
            l.(total := l.total + available, entries := l.entries + [Entry(id, available)],
               operations := l.operations + 1)
  {
  }

  // Dust booked and recovered again.
  lemma FillAndEmpty(amount: I128, id: U64)
    requires amount >= 0
    ensures var filled := SettleStep(EMPTY, amount, [], id).0;
            RecoverStep(filled, id, amount).0 == EMPTY.(recovered := amount, operations := 1)
  {
    SettleOne(EMPTY, amount, id);
    var filled := SettleStep(EMPTY, amount, [], id).0;
    assert filled.entries == [Entry(id, amount)] && Position(filled.entries, id) == Some(0);
  }

  // ---- The record as the source updates it ----

  class DustBook {
    var totalDust: I128
    var leaseDust: seq<Entry>
    var signerDust: seq<Share>
    var dustRecovered: I128
    var dustOperations: U64

    function Contents(): Ledger
      reads this
    {
      Ledger(totalDust, leaseDust, signerDust, dustRecovered, dustOperations)
    }

    // The total is the sum of the entries.
    predicate Valid()
      reads this
    {
      Balanced(Contents())
    }

    constructor ()
      ensures Contents() == EMPTY && Valid()
    {
      totalDust, leaseDust, signerDust, dustRecovered, dustOperations := 0, [], [], 0, 0;
    }

    // On success the shares hand out the whole amount; the ledger moves as SplitStep says.
    method MultiSignerSplit(total: I128, ratios: seq<Ratio>, leaseId: U64) returns (r: Result<seq<Share>, DustError>)
      modifies this
      ensures old(Valid()) ==> Valid() && totalDust == old(totalDust) && dustRecovered == old(dustRecovered)
      ensures DistinctSigners(ratios) ==> signerDust == old(signerDust)
      ensures Contents() == SplitStep(old(Contents()), total, ratios, leaseId).0
      ensures match SplitStep(old(Contents()), total, ratios, leaseId).1
              case Ok(_) => r.Ok? && Apportioned(total, ratios, r.value)
                            && forall i | 0 <= i < |r.value| :: r.value[i].amount >= 0
              case Err(e) => r == Err(e)
    {
      ghost var before := Contents();
      if Valid() {
        SplitAccounted(before, total, ratios, leaseId);
      }
      if total < 0 { return Err(NegativeAmount); }
      if !FitsU32(SumBy(ratios, Bps)) { return Err(Panic); }
      if SumBy(ratios, Bps) > 10000 { return Err(InvalidBasisPointsSum); }
      var shares: seq<Share> := [];
      if ratios != [] {
        var split := SplitShares(total, ratios);
        if split.Err? { return Err(split.error); }
        shares := split.value;
        SharesOfExact(total, ratios, shares);
        SignerDustExact(total, ratios);
      }
      if SumBy(shares, ShareAmount) != total { return Err(DustAccountingMismatch); }
      leaseDust := leaseDust + [Entry(leaseId, 0)];
      if !FitsU64(dustOperations + 1) { return Err(Panic); }
      dustOperations := dustOperations + 1;
      var tracked := TrackSigners(total, ratios, shares);
      assert shares == SharesOf(total, ratios);
      return if tracked then Ok(shares) else Err(CalculationOverflow);
    }

    // The second pass over the shares; what it recorded before an overflow stays.
    method TrackSigners(total: I128, ratios: seq<Ratio>, shares: seq<Share>) returns (ok: bool)
      modifies this`signerDust
      ensures (signerDust, ok) ==
              (old(signerDust) + SignerPass(total, ratios, shares).0, SignerPass(total, ratios, shares).1)
    {
      ghost var added := [];
      for i := 0 to |shares|
        invariant SignerPass(total, ratios, shares).1 == SignerPass(total, ratios, shares[i..]).1
        invariant SignerPass(total, ratios, shares).0 == added + SignerPass(total, ratios, shares[i..]).0
        invariant signerDust == old(signerDust) + added
      {
        assert shares[i..][0] == shares[i] && shares[i..][1..] == shares[i + 1..];
        if !FitsI128(total * FirstBps(ratios, shares[i].signer)) {
          assert SignerPass(total, ratios, shares).0 == added + [] == added;
          return false;
        }
        var dust := Floor(total, FirstBps(ratios, shares[i].signer)) - shares[i].amount;
        if dust > 0 {
          signerDust := signerDust + [Share(shares[i].signer, dust)];
        }
        added := added + SignerDust(total, ratios, shares[i]);
      }
      assert SignerPass(total, ratios, shares).0 == added + [] == added;
      return true;
    }

    // On success returns the dust, what the settlement leaves of the amount available.
    method PartialSettlement(available: I128, amounts: seq<I128>, leaseId: U64) returns (r: Result<int, DustError>)
      modifies this
      ensures old(Valid()) ==> Valid() && dustRecovered == old(dustRecovered)
      ensures r.Ok? ==> totalDust == old(totalDust) + r.value
      ensures var (l, outcome) := SettleStep(old(Contents()), available, amounts, leaseId);
              && Contents() == l
              && (outcome.Ok? ==> r == Ok(available - SumBy(amounts, Itself)) && r.value >= 0)
              && (outcome.Err? ==> r == Err(outcome.error))
    {
      if Valid() {
        SettleAccounted(Contents(), available, amounts, leaseId);
      }
      if available < 0 { return Err(NegativeAmount); }
      for i := 0 to |amounts|
        invariant forall k | 0 <= k < i :: amounts[k] >= 0
      {
        if amounts[i] < 0 { return Err(NegativeSettlementAmount); }
      }
      if !FitsI128(SumBy(amounts, Itself)) { return Err(Panic); }
      if SumBy(amounts, Itself) > available { return Err(SettlementExceedsAvailable); }
      SumByNonNegative(amounts, Itself);
      var dust := available - SumBy(amounts, Itself);
      if !FitsI128(totalDust + dust) { return Err(CalculationOverflow); }
      totalDust := totalDust + dust;
      leaseDust := leaseDust + [Entry(leaseId, dust)];
      if !FitsU64(dustOperations + 1) { return Err(Panic); }
      dustOperations := dustOperations + 1;
      return Ok(dust);
    }

    method RecoverDust(leaseId: U64, amount: I128) returns (r: Result<(), DustError>)
      modifies this
      ensures old(Valid()) ==> (Valid() <==> !RecoveryOverflows(old(Contents()), Recover(leaseId, amount)))
      ensures old(Valid()) && Valid() ==> totalDust + dustRecovered == old(totalDust + dustRecovered)
      ensures (Contents(), r) == RecoverStep(old(Contents()), leaseId, amount)
    {
      ghost var after := RecoverStep(Contents(), leaseId, amount).0;
      if Valid() {
        RecoverKeepsBalance(Contents(), leaseId, amount);
      }
      if amount < 0 { return Err(NegativeRecoveryAmount); }
      var index := Position(leaseDust, leaseId);
      if index.None? { return Err(NoDustForLease); }
      var dust := leaseDust[index.value].amount;
      if amount > dust { return Err(RecoveryExceedsDust); }
      if !FitsI128(totalDust - amount) { return Err(CalculationOverflow); }
      totalDust := totalDust - amount;
      if !FitsI128(dustRecovered + amount) { return Err(CalculationOverflow); }
      dustRecovered := dustRecovered + amount;
      if dust == amount {
        leaseDust := leaseDust[..index.value] + leaseDust[index.value + 1..];
      } else {
        leaseDust := leaseDust[index.value := Entry(leaseId, dust - amount)];
      }
      assert Contents() == after;
      return Ok(());
    }
  }
}
