/**
 Lessor rights NFTs (contracts/leaseflow_contracts/src/lessor_rights_nft.rs): minting, transfer with
 yield proration, and locks, over the metadata table and the holder lists.
 */
module LessorNft {
  import opened Arith
  import opened LeaseInstances

  datatype Metadata = Metadata(
    leaseId: U64, originalLessor: Address, holder: Address, leaseStart: U64, leaseEnd: U64,
    monthlyRent: I128, securityDeposit: I128, mintedAt: U64, lastTransfer: U64, transferCount: U32,
    pendingYield: I128, billingCycleStart: U64)

  datatype LockReason = LeaseActive | LeaseDisputed | ArbitrationInProgress | RegulatoryHold
  datatype Lock = Lock(tokenId: nat, reason: LockReason, lockedAt: U64, expiresAt: Option<U64>)

  datatype Store = Store(
    metadata: map<nat, Metadata>, leaseToNft: map<U64, nat>, locks: map<U64, Lock>, holders: Lists)

  datatype Error =
    | LeaseNotFound | NFTAlreadyExists | InvalidLeaseState | UnauthorizedTransfer | NFTNotFound | TransferDuringLock
    | HostAbort // an unchecked operation overflowed

  const EMPTY: Store := Store(map[], map[], map[], map[])

  // ---- Operations ----

  // mint_lessor_rights_token; lease is the stored lease instance, if there is one.
  function Mint(s: Store, now: U64, leaseId: U64, lessor: Address, lease: Option<LeaseInstance>): Result<Store, Error> {
    if lease.None? then Err(LeaseNotFound)
    else if lease.value.status != Active && lease.value.status != Pending then Err(InvalidLeaseState)
    else if leaseId in s.leaseToNft then Err(NFTAlreadyExists)
    else if !FitsI128(lease.value.deposit + lease.value.securityDeposit) then Err(HostAbort)
    else
      var id := TokenId(leaseId, now);
      var l := lease.value;
      var m := Metadata(leaseId, lessor, lessor, l.startDate, l.endDate, l.rent,
                        l.deposit + l.securityDeposit, now, now, 0, 0, l.startDate);
      Ok(Store(s.metadata[id := m], s.leaseToNft[leaseId := id],
               s.locks[leaseId := Lock(id, LeaseActive, now, None)], Push(s.holders, lessor, id)))
  }

  const CYCLE := 2592000 // thirty days in seconds

  // calculate_yield_proration: rent accrued since the billing cycle started; None on overflow.
  function Proration(m: Metadata, now: U64): Option<int> {
    var product := SatSub(now, m.billingCycleStart) * m.monthlyRent;
    if FitsI128(product) then Some(TruncDiv(product, CYCLE)) else None
  }

  // transfer_nft; also returns the proration amount paid to the previous holder.
  function Transfer(s: Store, now: U64, id: nat, from: Address, to: Address): Result<(Store, int), Error> {
    if id !in s.metadata then Err(NFTNotFound)
    else
      var m := s.metadata[id];
      if m.holder != from then Err(UnauthorizedTransfer)
      else if m.leaseId in s.locks then Err(TransferDuringLock)
      else if Proration(m, now).None? || !FitsU32(m.transferCount + 1) then Err(HostAbort)
      else
        var m' := m.(holder := to, lastTransfer := now, transferCount := m.transferCount + 1,
                     pendingYield := 0, billingCycleStart := now);
        Ok((s.(metadata := s.metadata[id := m'], holders := Move(s.holders, id, from, to)), Proration(m, now).value))
  }

  // update_nft_lock
  function UpdateLock(s: Store, now: U64, leaseId: U64, reason: LockReason, expires: Option<U64>)
    : Result<Store, Error>
  {
    if leaseId !in s.leaseToNft then Err(NFTNotFound)
    else Ok(s.(locks := s.locks[leaseId := Lock(s.leaseToNft[leaseId], reason, now, expires)]))
  }

  // release_nft_lock
  function ReleaseLock(s: Store, leaseId: U64): Store { s.(locks := s.locks - {leaseId}) }

  // ---- Runs ----

  datatype Op =
    | MintOp(leaseId: U64, lessor: Address, lease: Option<LeaseInstance>)
    | TransferOp(id: nat, from: Address, to: Address)
    | LockOp(leaseId: U64, reason: LockReason, expires: Option<U64>)
    | ReleaseOp(leaseId: U64)

  datatype Call = Call(now: U64, op: Op)

  function Step(s: Store, c: Call): Result<Store, Error> {
    match c.op
    case MintOp(leaseId, lessor, lease) => Mint(s, c.now, leaseId, lessor, lease)
    case TransferOp(id, from, to) =>
      var r :- Transfer(s, c.now, id, from, to);
      Ok(r.0)
    case LockOp(leaseId, reason, expires) => UpdateLock(s, c.now, leaseId, reason, expires)
    case ReleaseOp(leaseId) => Ok(ReleaseLock(s, leaseId))
  }

  function Apply(s: Store, c: Call): Store {
    var r := Step(s, c);
    if r.Ok? then r.value else s
  }

  function Run(s: Store, calls: seq<Call>): Store
    decreases |calls|
  {
    if calls == [] then s else Run(Apply(s, calls[0]), calls[1..])
  }

  // ---- What every run keeps ----

  // A token and its lease name each other; the lease is the high half of the token's id.
  predicate Paired(s: Store, id: nat)
    requires id in s.metadata
  {
    var l := s.metadata[id].leaseId;
    l in s.leaseToNft && s.leaseToNft[l] == id && id / 0x1_0000_0000_0000_0000 == l
  }

  predicate Mapped(s: Store, l: U64)
    requires l in s.leaseToNft
  {
    s.leaseToNft[l] in s.metadata && s.metadata[s.leaseToNft[l]].leaseId == l
  }

  // A token stands once in its holder's list and in no other list.
  predicate Listed(s: Store, id: nat, a: Address) {
    Count(s.holders, a, id) == if id in s.metadata && s.metadata[id].holder == a then 1 else 0
  }

  ghost predicate StoreOk(s: Store) {
    && (forall id | id in s.metadata :: Paired(s, id))
    && (forall l | l in s.leaseToNft :: Mapped(s, l))
    && (forall l | l in s.locks :: l in s.leaseToNft)
    && (forall id: nat, a: Address :: Listed(s, id, a))
  }

  lemma MintKeepsStore(s: Store, now: U64, leaseId: U64, lessor: Address, lease: Option<LeaseInstance>)
    requires StoreOk(s)
    ensures var r := Mint(s, now, leaseId, lessor, lease);
            r.Ok? ==> StoreOk(r.value) && TokenId(leaseId, now) !in s.metadata
  {
    var r := Mint(s, now, leaseId, lessor, lease);
    if r.Ok? {
      var s', id := r.value, TokenId(leaseId, now);
      assert id in s.metadata ==> Paired(s, id);
      forall x | x in s'.metadata ensures Paired(s', x) {
        if x != id { assert Paired(s, x); }
      }
      forall l | l in s'.leaseToNft ensures Mapped(s', l) {
        if l != leaseId { assert Mapped(s, l); }
      }
      forall x: nat, a: Address ensures Listed(s', x, a) {
        assert Listed(s, x, a);
        PushCounts(s.holders, lessor, id, a, x);
      }
    }
  }

  lemma TransferKeepsStore(s: Store, now: U64, id: nat, from: Address, to: Address)
    requires StoreOk(s)
    ensures var r := Transfer(s, now, id, from, to); r.Ok? ==> StoreOk(r.value.0)
  {
    var r := Transfer(s, now, id, from, to);
    if r.Ok? {
      var s' := r.value.0;
      forall x | x in s'.metadata ensures Paired(s', x) { assert Paired(s, x); }
      forall l | l in s'.leaseToNft ensures Mapped(s', l) { assert Mapped(s, l); }
      forall x: nat, a: Address ensures Listed(s', x, a) {
        assert Listed(s, x, a);
        MoveCounts(s.holders, id, from, to, a, x);
      }
    }
  }

  lemma LocksKeepStore(s: Store, locks: map<U64, Lock>)
    requires StoreOk(s) && forall l | l in locks :: l in s.leaseToNft
    ensures StoreOk(s.(locks := locks))
  {
    var s' := s.(locks := locks);
    forall x | x in s'.metadata ensures Paired(s', x) { assert Paired(s, x); }
    forall l | l in s'.leaseToNft ensures Mapped(s', l) { assert Mapped(s, l); }
    forall x: nat, a: Address ensures Listed(s', x, a) { assert Listed(s, x, a); }
  }

  lemma StepKeepsStore(s: Store, c: Call)
    requires StoreOk(s)
    ensures StoreOk(Apply(s, c))
  {
    match c.op
    case MintOp(leaseId, lessor, lease) => MintKeepsStore(s, c.now, leaseId, lessor, lease);
    case TransferOp(id, from, to) => TransferKeepsStore(s, c.now, id, from, to);
    case LockOp(leaseId, reason, expires) =>
      if leaseId in s.leaseToNft { LocksKeepStore(s, Apply(s, c).locks); }
    case ReleaseOp(leaseId) => LocksKeepStore(s, s.locks - {leaseId});
  }

  /** From any consistent store, the empty one included, every run leads to a consistent store. */
  lemma {:induction false} RunKeepsStore(s: Store, calls: seq<Call>)
    requires StoreOk(s)
    ensures StoreOk(Run(s, calls))
    decreases |calls|
  {
    if calls == [] {
    } else {
      StepKeepsStore(s, calls[0]);
      RunKeepsStore(Apply(s, calls[0]), calls[1..]);
    }
  }

  /** In a consistent store a lease has at most one token. */
  lemma OneTokenPerLease(s: Store, id: nat, id': nat)
    requires StoreOk(s) && id in s.metadata && id' in s.metadata
    requires s.metadata[id].leaseId == s.metadata[id'].leaseId
    ensures id == id'
  {
    assert Paired(s, id) && Paired(s, id');
  }

  // ---- Locks ----

  predicate NeverReleases(calls: seq<Call>, leaseId: U64) {
    forall i | 0 <= i < |calls| :: calls[i].op != ReleaseOp(leaseId)
  }

  /** While a lock exists the holder, and the accrual clock, of its token do not change. */
  lemma {:induction false} LockedTokenFrozen(s: Store, calls: seq<Call>, id: nat)
    requires StoreOk(s) && id in s.metadata && s.metadata[id].leaseId in s.locks
    requires NeverReleases(calls, s.metadata[id].leaseId)
    ensures var s' := Run(s, calls);
            id in s'.metadata && s'.metadata[id] == s.metadata[id] && s.metadata[id].leaseId in s'.locks
    decreases |calls|
  {
    if calls == [] {
    } else {
      var s1 := Apply(s, calls[0]);
      StepKeepsStore(s, calls[0]);
      LockedStep(s, calls[0], id);
      assert forall i | 0 <= i < |calls| - 1 :: calls[1..][i] == calls[i + 1];
      LockedTokenFrozen(s1, calls[1..], id);
    }
  }

  lemma LockedStep(s: Store, c: Call, id: nat)
    requires StoreOk(s) && id in s.metadata && s.metadata[id].leaseId in s.locks
    requires c.op != ReleaseOp(s.metadata[id].leaseId)
    ensures var s' := Apply(s, c);
            id in s'.metadata && s'.metadata[id] == s.metadata[id] && s.metadata[id].leaseId in s'.locks
  {
    assert Paired(s, id);
    if c.op.MintOp? {
      MintKeepsStore(s, c.now, c.op.leaseId, c.op.lessor, c.op.lease);
    }
  }

  // ---- What each call answers and changes ----

  // Metadata of a new token, as the lease gives it.
  predicate Describes(m: Metadata, leaseId: U64, lessor: Address, l: LeaseInstance, now: U64) {
    && m.leaseId == leaseId && m.originalLessor == lessor && m.holder == lessor
    && m.leaseStart == l.startDate && m.leaseEnd == l.endDate && m.monthlyRent == l.rent
    && m.securityDeposit == l.deposit + l.securityDeposit && m.mintedAt == now && m.lastTransfer == now
    && m.transferCount == 0 && m.pendingYield == 0 && m.billingCycleStart == l.startDate
  }

  /** A mint is decided by the lease and by whether it has a token already. */
  lemma MintDecided(s: Store, now: U64, leaseId: U64, lessor: Address, lease: Option<LeaseInstance>)
    ensures var r := Mint(s, now, leaseId, lessor, lease);
            var open := lease.Some? && (lease.value.status == Active || lease.value.status == Pending);
            && (r == Err(LeaseNotFound) <==> lease.None?)
            && (r == Err(InvalidLeaseState) <==> lease.Some? && !open)
            && (r == Err(NFTAlreadyExists) <==> open && leaseId in s.leaseToNft)
            && (r.Ok? <==>
                && open && leaseId !in s.leaseToNft && FitsI128(lease.value.deposit + lease.value.securityDeposit))
  {
  }

  // Only the token id and its lease's entries are new.
  ghost predicate Adds(s: Store, s': Store, id: nat, leaseId: U64) {
    && s'.metadata.Keys == s.metadata.Keys + {id} && (forall x | x in s.metadata :: s'.metadata[x] == s.metadata[x])
    && s'.leaseToNft == s.leaseToNft[leaseId := id]
    && s'.locks.Keys == s.locks.Keys + {leaseId}
    && (forall l | l in s.locks && l != leaseId :: s'.locks[l] == s.locks[l])
    && ListsMove(s.holders, s'.holders, id)
  }

  /** An accepted mint adds one token, described by the lease and held by the lessor, and locks it. */
  lemma MintExact(s: Store, now: U64, leaseId: U64, lessor: Address, lease: Option<LeaseInstance>)
    requires StoreOk(s) && Mint(s, now, leaseId, lessor, lease).Ok?
    ensures var s', id := Mint(s, now, leaseId, lessor, lease).value, TokenId(leaseId, now);
            && id !in s.metadata && Adds(s, s', id, leaseId)
            && Describes(s'.metadata[id], leaseId, lessor, lease.value, now)
            && s'.locks[leaseId] == Lock(id, LeaseActive, now, None)
            && Count(s'.holders, lessor, id) == 1
  {
    var s', id := Mint(s, now, leaseId, lessor, lease).value, TokenId(leaseId, now);
    MintKeepsStore(s, now, leaseId, lessor, lease);
    assert Listed(s', id, lessor);
    PushListsMove(s.holders, lessor, id);
  }

  // The answer of a transfer before any arithmetic.
  predicate MayTransfer(s: Store, id: nat, from: Address) {
    id in s.metadata && s.metadata[id].holder == from && s.metadata[id].leaseId !in s.locks
  }

  // The record after a transfer.
  predicate HandedOver(m: Metadata, m': Metadata, to: Address, now: U64) {
    && m'.holder == to && m'.lastTransfer == now && m'.transferCount == m.transferCount as int + 1
    && m'.pendingYield == 0 && m'.billingCycleStart == now
    && m'.leaseId == m.leaseId && m'.originalLessor == m.originalLessor && m'.leaseStart == m.leaseStart
    && m'.leaseEnd == m.leaseEnd && m'.monthlyRent == m.monthlyRent && m'.securityDeposit == m.securityDeposit
    && m'.mintedAt == m.mintedAt
  }

  // The rent of thirty days, for the time elapsed, rounded toward zero.
  predicate Prorated(paid: int, elapsed: int, rent: int) {
    if rent >= 0 then IsFloor(paid, elapsed * rent, 30 * 24 * 60 * 60)
    else IsFloor(-paid, -(elapsed * rent), 30 * 24 * 60 * 60)
  }

  /**
   Only the holder transfers, and only a token without a lock. The holder changes, the accrual clock
   starts again, and the previous holder is owed the rent accrued, at thirty days to the month.
   */
  lemma TransferExact(s: Store, now: U64, id: nat, from: Address, to: Address)
    ensures var r := Transfer(s, now, id, from, to);
            && (r == Err(NFTNotFound) <==> id !in s.metadata)
            && (r == Err(UnauthorizedTransfer) <==> id in s.metadata && s.metadata[id].holder != from)
            && (r == Err(TransferDuringLock) <==>
                id in s.metadata && s.metadata[id].holder == from && s.metadata[id].leaseId in s.locks)
            && (r.Ok? <==>
                && MayTransfer(s, id, from) && FitsU32(s.metadata[id].transferCount + 1)
                && FitsI128(SatSub(now, s.metadata[id].billingCycleStart) * s.metadata[id].monthlyRent))
            && (r.Ok? ==>
                  var m, s' := s.metadata[id], r.value.0;
                  && s'.metadata.Keys == s.metadata.Keys && HandedOver(m, s'.metadata[id], to, now)
                  && (forall x | x in s.metadata && x != id :: s'.metadata[x] == s.metadata[x])
                  && s'.leaseToNft == s.leaseToNft && s'.locks == s.locks
                  && ListsMove(s.holders, s'.holders, id)
                  && Count(s'.holders, to, id) == 1 + (if from == to then 0 else Count(s.holders, to, id))
                  && Prorated(r.value.1, Max(0, now - m.billingCycleStart), m.monthlyRent))
  {
    if Transfer(s, now, id, from, to).Ok? {
      var m := s.metadata[id];
      MoveListsMove(s.holders, id, from, to);
      ProrationFloors(SatSub(now, m.billingCycleStart), m.monthlyRent);
    }
  }

  lemma ProrationFloors(elapsed: nat, rent: int)
    ensures Prorated(TruncDiv(elapsed * rent, CYCLE), elapsed, rent)
  {
    if rent >= 0 {
      ScaleMonotone(elapsed, 0, rent);
    } else {
      ScaleMonotone(elapsed, rent, 0);
    }
  }

  /** A lock is set for a tokenized lease only, over any lock it has, and released whether or not it has one. */
  lemma LockExact(s: Store, now: U64, leaseId: U64, reason: LockReason, expires: Option<U64>)
    ensures var r := UpdateLock(s, now, leaseId, reason, expires);
            && (r == Err(NFTNotFound) <==> leaseId !in s.leaseToNft)
            && (r.Ok? <==> leaseId in s.leaseToNft)
            && (r.Ok? ==>
                  && r.value.locks.Keys == s.locks.Keys + {leaseId}
                  && (forall l | l in s.locks && l != leaseId :: r.value.locks[l] == s.locks[l])
                  && r.value.locks[leaseId] == Lock(s.leaseToNft[leaseId], reason, now, expires)
                  && r.value.metadata == s.metadata && r.value.leaseToNft == s.leaseToNft
                  && r.value.holders == s.holders)
    ensures var s' := ReleaseLock(s, leaseId);
            && s'.locks.Keys == s.locks.Keys - {leaseId} && (forall l | l in s'.locks :: s'.locks[l] == s.locks[l])
            && s'.metadata == s.metadata && s'.leaseToNft == s.leaseToNft && s'.holders == s.holders
  {
  }

  /**
   A minted token stays where it is: in every later run that does not release its lease's lock, any
   attempt of its holder to transfer it fails for the lock, and of anyone else as unauthorized.
   */
  lemma MintedTokenLocked(s: Store, now: U64, leaseId: U64, lessor: Address, lease: Option<LeaseInstance>,
                          calls: seq<Call>, later: U64, from: Address, to: Address)
    requires StoreOk(s) && Mint(s, now, leaseId, lessor, lease).Ok? && NeverReleases(calls, leaseId)
    ensures Transfer(Run(Mint(s, now, leaseId, lessor, lease).value, calls), later, TokenId(leaseId, now), from, to) ==
            Err(if from == lessor then TransferDuringLock else UnauthorizedTransfer)
  {
    var s' := Mint(s, now, leaseId, lessor, lease).value;
    MintKeepsStore(s, now, leaseId, lessor, lease);
    MintExact(s, now, leaseId, lessor, lease);
    LockedTokenFrozen(s', calls, TokenId(leaseId, now));
  }

  // ---- Yield over a chain of transfers ----

  predicate Transfers(s: Store, c: Call, id: nat) { c.op.TransferOp? && c.op.id == id && Step(s, c).Ok? }

  // Proration amounts paid out for a token over a run, and how many transfers paid them.
  function PaidOut(s: Store, calls: seq<Call>, id: nat): int
    decreases |calls|
  {
    if calls == [] then 0
    else
      var c := calls[0];
      (if Transfers(s, c, id) then Transfer(s, c.now, id, c.op.from, c.op.to).value.1 else 0)
      + PaidOut(Apply(s, c), calls[1..], id)
  }

  function Hops(s: Store, calls: seq<Call>, id: nat): nat
    decreases |calls|
  {
    if calls == [] then 0
    else (if Transfers(s, calls[0], id) then 1 else 0) + Hops(Apply(s, calls[0]), calls[1..], id)
  }

  // The time that the transfers prorated.
  function Held(s: Store, calls: seq<Call>, id: nat): nat
    decreases |calls|
  {
    if calls == [] then 0
    else
      (if Transfers(s, calls[0], id) then SatSub(calls[0].now, s.metadata[id].billingCycleStart) else 0)
      + Held(Apply(s, calls[0]), calls[1..], id)
  }

  // By how much transfers made before the accrual clock, as before the lease starts, set it back.
  function SetBack(s: Store, calls: seq<Call>, id: nat): nat
    decreases |calls|
  {
    if calls == [] then 0
    else
      (if Transfers(s, calls[0], id) then SatSub(s.metadata[id].billingCycleStart, calls[0].now) else 0)
      + SetBack(Apply(s, calls[0]), calls[1..], id)
  }

  // Rent accrued over an interval, prorated once, toward zero.
  function Accrued(rent: int, elapsed: int): int { TruncDiv(elapsed * rent, CYCLE) }

  lemma AccruedSplits(rent: int, a: int, b: int)
    requires rent >= 0 && a >= 0 && b >= 0
    ensures Accrued(rent, a) + Accrued(rent, b) <= Accrued(rent, a + b) <= Accrued(rent, a) + Accrued(rent, b) + 1
  {
    ScaleMonotone(rent, 0, a);
    ScaleMonotone(rent, 0, b);
    assert (a + b) * rent == a * rent + b * rent;
    QuotientsSplit(a * rent, b * rent);
  }

  lemma QuotientsSplit(x: nat, y: nat)
    ensures x / CYCLE + y / CYCLE <= (x + y) / CYCLE <= x / CYCLE + y / CYCLE + 1
  {
  }

  // A negative rent accrues as its opposite does, with the other sign.
  lemma AccruedMirrors(rent: int, elapsed: int)
    ensures Accrued(-rent, elapsed) == -Accrued(rent, elapsed)
  {
    assert elapsed * -rent == -(elapsed * rent);
  }

  // A token keeps its rent, and its clock moves only when it is transferred.
  lemma YieldStep(s: Store, c: Call, id: nat)
    requires StoreOk(s) && id in s.metadata
    ensures var m, s' := s.metadata[id], Apply(s, c);
            && id in s'.metadata && s'.metadata[id].monthlyRent == m.monthlyRent
            && (if Transfers(s, c, id)
                then s'.metadata[id].billingCycleStart == c.now &&
                     Transfer(s, c.now, id, c.op.from, c.op.to).value.1 ==
                     Accrued(m.monthlyRent, SatSub(c.now, m.billingCycleStart))
                else s'.metadata[id].billingCycleStart == m.billingCycleStart)
  {
    if c.op.MintOp? {
      MintKeepsStore(s, c.now, c.op.leaseId, c.op.lessor, c.op.lease);
    }
  }

  // Rounding loses under one unit per transfer.
  predicate RoundsDown(paid: int, exact: int, hops: nat) {
    paid <= exact && (hops == 0 ==> exact == 0) && (hops > 0 ==> exact - paid < hops)
  }

  // The same toward zero, whatever the sign of the rent.
  predicate RoundsTowardZero(rent: int, paid: int, exact: int, hops: nat) {
    if rent >= 0 then RoundsDown(paid, exact, hops) else RoundsDown(-paid, -exact, hops)
  }

  lemma RoundsDownStep(rent: int, a: int, b: int, paid: int, hops: nat)
    requires rent >= 0 && a >= 0 && b >= 0 && (hops == 0 ==> b == 0 && paid == 0)
    requires RoundsDown(paid, Accrued(rent, b), hops)
    ensures RoundsDown(Accrued(rent, a) + paid, Accrued(rent, a + b), hops + 1)
  {
    AccruedSplits(rent, a, b);
  }

  lemma RoundsStep(rent: int, a: int, b: int, paid: int, hops: nat)
    requires a >= 0 && b >= 0 && (hops == 0 ==> b == 0 && paid == 0)
    requires RoundsTowardZero(rent, paid, Accrued(rent, b), hops)
    ensures RoundsTowardZero(rent, Accrued(rent, a) + paid, Accrued(rent, a + b), hops + 1)
  {
    if rent >= 0 {
      RoundsDownStep(rent, a, b, paid, hops);
    } else {
      AccruedMirrors(rent, a);
      AccruedMirrors(rent, b);
      AccruedMirrors(rent, a + b);
      RoundsDownStep(-rent, a, b, -paid, hops);
    }
  }

  // From one state to a later one: the time prorated and the payments for it.
  predicate YieldBetween(m: Metadata, m': Metadata, held: nat, setBack: nat, paid: int, hops: nat) {
    && m'.monthlyRent == m.monthlyRent
    && held == m'.billingCycleStart - m.billingCycleStart + setBack
    && (hops == 0 ==> held == 0 && paid == 0)
    && RoundsTowardZero(m.monthlyRent, paid, Accrued(m.monthlyRent, held), hops)
  }

  lemma YieldCons(m: Metadata, m1: Metadata, m': Metadata, now: U64, held: nat, setBack: nat, paid: int, hops: nat)
    requires m1.monthlyRent == m.monthlyRent && m1.billingCycleStart == now
    requires YieldBetween(m1, m', held, setBack, paid, hops)
    ensures var elapsed, back := SatSub(now, m.billingCycleStart), SatSub(m.billingCycleStart, now);
            YieldBetween(m, m', elapsed + held, back + setBack, Accrued(m.monthlyRent, elapsed) + paid, hops + 1)
  {
    RoundsStep(m.monthlyRent, SatSub(now, m.billingCycleStart), held, paid, hops);
  }

  /**
   Over any run, whatever the rent's sign and the order of times: what n transfers of a token pay out
   is the rent for all the time they prorate, prorated once, but for fewer than n units toward zero.
   That time is what the accrual clock moved forward, and once more all that it was set back.
   */
  lemma {:induction false} YieldOverRun(s: Store, calls: seq<Call>, id: nat)
    requires StoreOk(s) && id in s.metadata
    ensures id in Run(s, calls).metadata
    ensures YieldBetween(s.metadata[id], Run(s, calls).metadata[id], Held(s, calls, id), SetBack(s, calls, id),
                         PaidOut(s, calls, id), Hops(s, calls, id))
    decreases |calls|
  {
    var m := s.metadata[id];
    if calls == [] {
    } else {
      var c, s1 := calls[0], Apply(s, calls[0]);
      StepKeepsStore(s, c);
      YieldStep(s, c, id);
      YieldOverRun(s1, calls[1..], id);
      if Transfers(s, c, id) {
        YieldCons(m, s1.metadata[id], Run(s1, calls[1..]).metadata[id], c.now, Held(s1, calls[1..], id),
                  SetBack(s1, calls[1..], id), PaidOut(s1, calls[1..], id), Hops(s1, calls[1..], id));
      }
    }
  }

  // No transfer of the token happens before its current accrual clock.
  predicate ClockForward(s: Store, calls: seq<Call>, id: nat)
    decreases |calls|
  {
    calls != [] ==>
      && (Transfers(s, calls[0], id) ==> id in s.metadata && s.metadata[id].billingCycleStart <= calls[0].now)
      && ClockForward(Apply(s, calls[0]), calls[1..], id)
  }

  /** The time prorated is the interval between the clocks exactly when no transfer sets the clock back. */
  lemma {:induction false} SetBackExactly(s: Store, calls: seq<Call>, id: nat)
    ensures SetBack(s, calls, id) == 0 <==> ClockForward(s, calls, id)
    decreases |calls|
  {
    if calls == [] {
    } else {
      SetBackExactly(Apply(s, calls[0]), calls[1..], id);
    }
  }

  // A token minted for a lease from time 100 on, transferred at 10 and at 50: 40 seconds are paid for.
  lemma EarlyTransferPaid()
    ensures var lease := LeaseInstance(Pending, DepositStatus.Held, 5, 100, 200, CYCLE, 50, 50);
            var id := TokenId(7, 0);
            var minted := Apply(EMPTY, Call(0, MintOp(7, 1, Some(lease))));
            var calls := [Call(0, ReleaseOp(7)), Call(10, TransferOp(id, 1, 2)), Call(50, TransferOp(id, 2, 3))];
            && id in minted.metadata && minted.metadata[id].leaseStart == 100
            && Hops(minted, calls, id) == 2 && PaidOut(minted, calls, id) == 40
  {
    var lease := LeaseInstance(Pending, DepositStatus.Held, 5, 100, 200, CYCLE, 50, 50);
    var id := TokenId(7, 0);
    var minted := Apply(EMPTY, Call(0, MintOp(7, 1, Some(lease))));
    var calls := [Call(0, ReleaseOp(7)), Call(10, TransferOp(id, 1, 2)), Call(50, TransferOp(id, 2, 3))];
    EarlyTransfers(Apply(minted, calls[0]), id, 10, 50, 1, 2, 3);
    assert calls[1..] == [calls[1], calls[2]];
    assert !Transfers(minted, calls[0], id);
  }

  // Two transfers by the time the lease starts, of a token that is not locked.
  lemma EarlyTransfers(s: Store, id: nat, now: U64, later: U64, a: Address, b: Address, c: Address)
    requires id in s.metadata && s.metadata[id].holder == a && s.metadata[id].leaseId !in s.locks
    requires now <= later && now <= s.metadata[id].billingCycleStart && s.metadata[id].transferCount == 0
    requires FitsI128((later - now) * s.metadata[id].monthlyRent)
    ensures var calls := [Call(now, TransferOp(id, a, b)), Call(later, TransferOp(id, b, c))];
            && Hops(s, calls, id) == 2
            && PaidOut(s, calls, id) == Accrued(s.metadata[id].monthlyRent, later - now)
  {
    var calls := [Call(now, TransferOp(id, a, b)), Call(later, TransferOp(id, b, c))];
    assert calls[1..] == [calls[1]] && calls[1..][1..] == [];
    var s1 := Apply(s, calls[0]);
    assert Transfers(s, calls[0], id) && Transfers(s1, calls[1], id);
    assert Hops(s1, [calls[1]], id) == 1 + Hops(Apply(s1, calls[1]), [], id);
    assert PaidOut(s1, [calls[1]], id) == Accrued(s.metadata[id].monthlyRent, later - now);
  }

  // ---- The contract as the source runs it ----

  class NftContract {
    var metadata: map<nat, Metadata>
    var leaseToNft: map<U64, nat>
    var locks: map<U64, Lock>
    var holders: Lists

    function Stored(): Store
      reads this
    {
      Store(metadata, leaseToNft, locks, holders)
    }

    ghost predicate Valid()
      reads this
    {
      StoreOk(Stored())
    }

    constructor ()
      ensures Stored() == EMPTY && Valid()
    {
      metadata, leaseToNft, locks, holders := map[], map[], map[], map[];
    }

    method MintToken(now: U64, leaseId: U64, lessor: Address, lease: Option<LeaseInstance>)
      returns (r: Result<nat, Error>)
      requires Valid()
      modifies this
      ensures Valid()
      ensures match Mint(old(Stored()), now, leaseId, lessor, lease)
              case Ok(s) => Stored() == s && r == Ok(TokenId(leaseId, now)) && leaseId in locks
              case Err(e) => Stored() == old(Stored()) && r == Err(e)
    {
      MintKeepsStore(Stored(), now, leaseId, lessor, lease);
      if lease.None? { return Err(LeaseNotFound); }
      if lease.value.status != Active && lease.value.status != Pending { return Err(InvalidLeaseState); }
      if leaseId in leaseToNft { return Err(NFTAlreadyExists); }
      var l := lease.value;
      if !FitsI128(l.deposit + l.securityDeposit) { return Err(HostAbort); }
      var id := TokenId(leaseId, now);
      metadata := metadata[id := Metadata(leaseId, lessor, lessor, l.startDate, l.endDate, l.rent,
                                          l.deposit + l.securityDeposit, now, now, 0, 0, l.startDate)];
      leaseToNft := leaseToNft[leaseId := id];
      holders := holders[lessor := (if lessor in holders then holders[lessor] else []) + [id]];
      locks := locks[leaseId := Lock(id, LeaseActive, now, None)];
      return Ok(id);
    }

    // Returns the proration amount.
    method TransferToken(now: U64, id: nat, from: Address, to: Address) returns (r: Result<int, Error>)
      requires Valid()
      modifies this
      ensures Valid()
      ensures match Transfer(old(Stored()), now, id, from, to)
              case Ok((s, paid)) => Stored() == s && r == Ok(paid)
              case Err(e) => Stored() == old(Stored()) && r == Err(e)
    {
      TransferKeepsStore(Stored(), now, id, from, to);
      if id !in metadata { return Err(NFTNotFound); }
      var m := metadata[id];
      if m.holder != from { return Err(UnauthorizedTransfer); }
      if m.leaseId in locks { return Err(TransferDuringLock); }
      var paid := Proration(m, now);
      if paid.None? || !FitsU32(m.transferCount + 1) { return Err(HostAbort); }
      m := m.(holder := to);
      m := m.(lastTransfer := now);
      m := m.(transferCount := m.transferCount + 1);
      m := m.(pendingYield := 0);
      m := m.(billingCycleStart := now);
      metadata := metadata[id := m];
      holders := holders[from := Without(ListOf(holders, from), id)];
      holders := holders[to := ListOf(holders, to) + [id]];
      return Ok(paid.value);
    }

    method SetLock(now: U64, leaseId: U64, reason: LockReason, expires: Option<U64>) returns (r: Result<(), Error>)
      requires Valid()
      modifies this
      ensures Valid()
      ensures match UpdateLock(old(Stored()), now, leaseId, reason, expires)
              case Ok(s) => Stored() == s && r == Ok(())
              case Err(e) => Stored() == old(Stored()) && r == Err(e)
    {
      StepKeepsStore(Stored(), Call(now, LockOp(leaseId, reason, expires)));
      if leaseId !in leaseToNft { return Err(NFTNotFound); }
      locks := locks[leaseId := Lock(leaseToNft[leaseId], reason, now, expires)];
      return Ok(());
    }

    method Release(leaseId: U64)
      requires Valid()
      modifies this
      ensures Valid() && Stored() == ReleaseLock(old(Stored()), leaseId)
    {
      LocksKeepStore(Stored(), locks - {leaseId});
      if leaseId !in locks {
        assert locks - {leaseId} == locks;
        return;
      }
      locks := locks - {leaseId};
    }
  }
}
