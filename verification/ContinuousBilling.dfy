/**
 Continuous billing (contracts/leaseflow_contracts/src/continuous_billing_module.rs): the schedule of
 billing windows that registration and cycle processing produce, however late cycles are processed.
 */
module ContinuousBilling {
  import opened Arith

  datatype Lease = Lease(
    lessor: Address, rentAmount: I128, rentPerSecond: I128, startTime: U64, endTime: U64, frequency: U64,
    lastCycle: U64, active: bool, billingEnabled: bool, totalOwed: I128)

  datatype Cycle = Cycle(leaseId: U64, rent: I128, start: U64, end: U64, duration: U64)

  datatype Billing = Billing(
    admin: Address, leases: map<U64, Lease>, cycles: map<nat, Cycle>,
    enabled: bool, paused: bool, cyclesProcessed: U64, protection: bool, guard: bool)

  datatype Error =
    | Unauthorized | LeaseNotFound | ReentrancyDetected | InvalidTimestamp | LeaseNotActive | BillingNotEnabled
    | HostAbort // an unchecked operation overflowed

  // initialize
  function Initialized(admin: Address): Billing { Billing(admin, map[], map[], true, false, 0, true, false) }

  // ---- Operations; an error, returned inside the guard or not, rolls the call back ----

  // register_lease_billing
  function Register(b: Billing, id: U64, lessor: Address, rent: I128, perSecond: I128,
                    start: U64, end: U64, frequency: U64): Result<Billing, Error>
  {
    if !b.enabled || b.paused then Err(BillingNotEnabled)
    else Ok(b.(leases := b.leases[id := Lease(lessor, rent, perSecond, start, end, frequency, 0, true, true, 0)]))
  }

  // The start of the next window; a stored zero means that no cycle was processed yet.
  function NextDue(l: Lease): nat {
    if l.lastCycle == 0 then l.startTime else l.lastCycle + l.frequency
  }

  // Time charged to a window: up to now, but not past the end of the lease.
  function Duration(l: Lease, now: U64): int { Min(now, l.endTime) - NextDue(l) }

  function RentFor(l: Lease, duration: int): int {
    if l.rentPerSecond > 0 then l.rentPerSecond * duration else l.rentAmount
  }

  // The cycle that is due on a lease.
  function DueCycle(id: U64, l: Lease, now: U64): Result<Cycle, Error> {
    var due, end := NextDue(l), NextDue(l) + l.frequency;
    if !l.active || !l.billingEnabled then Err(LeaseNotActive)
    else if !FitsU64(due) then Err(HostAbort)
    else if now < due then Err(InvalidTimestamp)
    else if Duration(l, now) < 0 || !FitsI128(RentFor(l, Duration(l, now))) || !FitsU64(end) then Err(HostAbort)
    else Ok(Cycle(id, RentFor(l, Duration(l, now)), due, end, Duration(l, now)))
  }

  // The part of the state that a cycle changes.
  datatype Books = Books(leases: map<U64, Lease>, cycles: map<nat, Cycle>, cyclesProcessed: U64)

  // What process_billing_cycle does once it holds the guard; sequence is the ledger sequence number.
  function Bill(k: Books, now: U64, sequence: nat, id: U64): Result<Books, Error> {
    if id !in k.leases then Err(LeaseNotFound)
    else
      var l := k.leases[id];
      var cycle :- DueCycle(id, l, now);
      if !FitsI128(l.totalOwed + cycle.rent) || !FitsU64(k.cyclesProcessed + 1) then Err(HostAbort)
      else
        Ok(Books(k.leases[id := l.(lastCycle := cycle.start, totalOwed := l.totalOwed + cycle.rent)],
                 k.cycles[sequence := cycle], k.cyclesProcessed + 1))
  }

  // process_billing_cycle
  function Process(b: Billing, now: U64, sequence: nat, id: U64): Result<Billing, Error> {
    if b.protection && b.guard then Err(ReentrancyDetected)
    else
      var k :- Bill(Books(b.leases, b.cycles, b.cyclesProcessed), now, sequence, id);
      Ok(b.(leases := k.leases, cycles := k.cycles, cyclesProcessed := k.cyclesProcessed,
            guard := b.guard && !b.protection))
  }

  // terminate_lease_billing
  function Terminate(b: Billing, id: U64, caller: Address): Result<Billing, Error> {
    if b.protection && b.guard then Err(ReentrancyDetected)
    else if id !in b.leases then Err(LeaseNotFound)
    else if caller != b.leases[id].lessor && caller != b.admin then Err(Unauthorized)
    else Ok(b.(leases := b.leases[id := b.leases[id].(active := false, billingEnabled := false)],
               guard := b.guard && !b.protection))
  }

  // toggle_emergency_pause
  function TogglePause(b: Billing, caller: Address, pause: bool): Result<Billing, Error> {
    if caller != b.admin then Err(Unauthorized) else Ok(b.(paused := pause))
  }

  // ---- Runs ----

  datatype Op =
    | RegisterOp(id: U64, lessor: Address, rent: I128, perSecond: I128, start: U64, end: U64, frequency: U64)
    | ProcessOp(id: U64, sequence: nat)
    | TerminateOp(id: U64, caller: Address)
    | PauseOp(caller: Address, pause: bool)

  datatype Call = Call(now: U64, op: Op)

  function Step(b: Billing, c: Call): Result<Billing, Error> {
    match c.op
    case RegisterOp(id, lessor, rent, perSecond, start, end, frequency) =>
      Register(b, id, lessor, rent, perSecond, start, end, frequency)
    case ProcessOp(id, sequence) => Process(b, c.now, sequence, id)
    case TerminateOp(id, caller) => Terminate(b, id, caller)
    case PauseOp(caller, pause) => TogglePause(b, caller, pause)
  }

  function Apply(b: Billing, c: Call): Billing {
    var r := Step(b, c);
    if r.Ok? then r.value else b
  }

  function Run(b: Billing, calls: seq<Call>): Billing
    decreases |calls|
  {
    if calls == [] then b else Run(Apply(b, calls[0]), calls[1..])
  }

  datatype Window = Window(start: int, end: int)

  predicate Bills(b: Billing, c: Call, id: U64) { c.op.ProcessOp? && c.op.id == id && Step(b, c).Ok? }

  function WindowOf(b: Billing, c: Call, id: U64): Window
    requires Bills(b, c, id)
  {
    var cycle := Step(b, c).value.cycles[c.op.sequence];
    Window(cycle.start, cycle.end)
  }

  // The windows that a run bills on a lease, in the order of the calls.
  function Windows(b: Billing, calls: seq<Call>, id: U64): seq<Window>
    decreases |calls|
  {
    if calls == [] then []
    else (if Bills(b, calls[0], id) then [WindowOf(b, calls[0], id)] else [])
         + Windows(Apply(b, calls[0]), calls[1..], id)
  }

  predicate NotReregistered(calls: seq<Call>, id: U64) {
    forall i | 0 <= i < |calls| :: !(calls[i].op.RegisterOp? && calls[i].op.id == id)
  }

  // ---- One step on one lease ----

  // What registration fixes: everything but the last cycle, the amount owed and the status.
  predicate SameTerms(l: Lease, l': Lease) {
    && l'.startTime == l.startTime && l'.endTime == l.endTime && l'.frequency == l.frequency
    && l'.rentAmount == l.rentAmount && l'.rentPerSecond == l.rentPerSecond
  }

  // An accepted cycle bills the window that is due, which has begun and begins by the lease's end.
  lemma ProcessExact(b: Billing, now: U64, sequence: nat, id: U64)
    requires Process(b, now, sequence, id).Ok?
    ensures id in b.leases
    ensures var l, b' := b.leases[id], Process(b, now, sequence, id).value;
            && l.active && NextDue(l) <= Min(now, l.endTime)
            && FitsU64(NextDue(l)) && FitsU64(NextDue(l) + l.frequency) && FitsI128(RentFor(l, Duration(l, now)))
            && b'.cycles == b.cycles[sequence := Cycle(id, RentFor(l, Duration(l, now)), NextDue(l),
                                                       NextDue(l) + l.frequency, Duration(l, now))]
            && b'.leases.Keys == b.leases.Keys
            && b'.leases[id].lastCycle == NextDue(l) && SameTerms(l, b'.leases[id]) && b'.leases[id].active
            && b'.leases[id].totalOwed == l.totalOwed + RentFor(l, Duration(l, now))
            && (forall x | x in b.leases && x != id :: b'.leases[x] == b.leases[x])
  {
  }

  // At most the lease id differs, and the switches are as they were.
  predicate OnlyLease(b: Billing, b': Billing, id: U64) {
    && b'.leases.Keys == b.leases.Keys + {id}
    && (forall x | x in b.leases && x != id :: b'.leases[x] == b.leases[x])
    && b'.admin == b.admin && b'.enabled == b.enabled && b'.paused == b.paused && b'.protection == b.protection
  }

  /** Registration is open unless billing is off or paused, and starts the lease anew, with nothing billed. */
  lemma RegisterExact(b: Billing, id: U64, lessor: Address, rent: I128, perSecond: I128,
                      start: U64, end: U64, frequency: U64)
    ensures var r := Register(b, id, lessor, rent, perSecond, start, end, frequency);
            && (r.Ok? <==> b.enabled && !b.paused) && (r.Err? ==> r.error == BillingNotEnabled)
            && (r.Ok? ==>
                  var l := r.value.leases[id];
                  && OnlyLease(b, r.value, id) && r.value.cycles == b.cycles && r.value.guard == b.guard
                  && r.value.cyclesProcessed == b.cyclesProcessed
                  && l.lessor == lessor && l.rentAmount == rent && l.rentPerSecond == perSecond
                  && l.startTime == start && l.endTime == end && l.frequency == frequency
                  && l.active && l.billingEnabled && l.lastCycle == 0 && l.totalOwed == 0)
  {
  }

  // When the next window of a lease begins: at its start, then a period after the last one began.
  function WindowStart(l: Lease): nat { if l.lastCycle > 0 then l.lastCycle + l.frequency else l.startTime }

  // Seconds charged at now: from the window's start to now or the lease's end, whichever is first.
  function Charged(l: Lease, now: U64): int { (if l.endTime < now then l.endTime else now) - WindowStart(l) }

  /** A cycle is accepted exactly when the lease is billable and its window has begun by now and by its end. */
  lemma CycleDecided(b: Billing, now: U64, sequence: nat, id: U64)
    requires !(b.protection && b.guard)
    ensures var r := Process(b, now, sequence, id);
            && (r == Err(LeaseNotFound) <==> id !in b.leases)
            && (id in b.leases ==>
                  var l := b.leases[id];
                  var rent := if l.rentPerSecond > 0 then l.rentPerSecond * Charged(l, now) else l.rentAmount;
                  && (r == Err(LeaseNotActive) <==> !(l.active && l.billingEnabled))
                  && (l.active && l.billingEnabled ==>
                        if FitsU64(WindowStart(l)) then (r == Err(InvalidTimestamp) <==> now < WindowStart(l))
                        else r == Err(HostAbort))
                  && (r.Ok? <==>
                      && l.active && l.billingEnabled && WindowStart(l) <= now && WindowStart(l) <= l.endTime
                      && FitsU64(WindowStart(l) + l.frequency) && FitsI128(rent) && FitsI128(l.totalOwed + rent)
                      && FitsU64(b.cyclesProcessed + 1))
                  && (r.Ok? ==>
                        var l' := r.value.leases[id];
                        && OnlyLease(b, r.value, id) && r.value.guard == (b.guard && !b.protection)
                        && r.value.cyclesProcessed == b.cyclesProcessed + 1
                        && r.value.cycles == b.cycles[sequence := r.value.cycles[sequence]]
                        && r.value.cycles[sequence] ==
                           Cycle(id, rent, WindowStart(l), WindowStart(l) + l.frequency, Charged(l, now))
                        && l'.lastCycle == WindowStart(l) && l'.totalOwed == l.totalOwed + rent
                        && l' == l.(lastCycle := l'.lastCycle, totalOwed := l'.totalOwed)))
    ensures b.protection && b.guard ==> Process(b, now, sequence, id) == Err(ReentrancyDetected)
  {
  }

  /** Only the lessor and the admin can terminate, with the guard free; the lease is then switched off. */
  lemma TerminateExact(b: Billing, id: U64, caller: Address)
    ensures var r := Terminate(b, id, caller);
            var free := !(b.protection && b.guard);
            && (r == Err(ReentrancyDetected) <==> !free)
            && (r == Err(LeaseNotFound) <==> free && id !in b.leases)
            && (r == Err(Unauthorized) <==>
                free && id in b.leases && caller != b.leases[id].lessor && caller != b.admin)
            && (r.Ok? <==> free && id in b.leases && (caller == b.leases[id].lessor || caller == b.admin))
            && (r.Ok? ==>
                  var l, l' := b.leases[id], r.value.leases[id];
                  && OnlyLease(b, r.value, id) && r.value.cycles == b.cycles
                  && r.value.cyclesProcessed == b.cyclesProcessed && r.value.guard == (b.guard && !b.protection)
                  && !l'.active && !l'.billingEnabled && SameTerms(l, l') && l'.lessor == l.lessor
                  && l'.lastCycle == l.lastCycle && l'.totalOwed == l.totalOwed)
  {
  }

  /** Only the admin pauses and resumes, and nothing else changes. */
  lemma PauseExact(b: Billing, caller: Address, pause: bool)
    ensures var r := TogglePause(b, caller, pause);
            && (r.Ok? <==> caller == b.admin) && (r.Err? ==> r.error == Unauthorized)
            && (r.Ok? ==> r.value.paused == pause && r.value.(paused := b.paused) == b)
  {
  }

  lemma StepOnLease(b: Billing, c: Call, id: U64)
    requires id in b.leases && !(c.op.RegisterOp? && c.op.id == id)
    ensures var l, b' := b.leases[id], Apply(b, c);
            && id in b'.leases && SameTerms(l, b'.leases[id])
            && (!l.active ==> !b'.leases[id].active && !Bills(b, c, id))
            && (if Bills(b, c, id)
                then && b'.leases[id].lastCycle == NextDue(l) <= Min(c.now, l.endTime)
                     && WindowOf(b, c, id) == Window(NextDue(l), NextDue(l) + l.frequency)
                     && b'.leases[id].totalOwed == l.totalOwed + RentFor(l, Duration(l, c.now))
                     && b'.cyclesProcessed == b.cyclesProcessed + 1
                else && b'.leases[id].lastCycle == l.lastCycle && b'.leases[id].totalOwed == l.totalOwed
                     && b'.cyclesProcessed >= b.cyclesProcessed)
  {
    if c.op.ProcessOp? && Step(b, c).Ok? {
      ProcessExact(b, c.now, c.op.sequence, c.op.id);
    }
  }

  // ---- The schedule ----

  // A cycle, once processed, is told apart from none: its start is not zero.
  predicate Distinguished(l: Lease) { l.startTime > 0 }

  // Windows of length f that follow each other without gap or overlap from due on, begun by end.
  predicate Tiles(ws: seq<Window>, due: int, f: int, end: int) {
    forall i | 0 <= i < |ws| :: ws[i] == Window(due + i * f, due + (i + 1) * f) && due + i * f <= end
  }

  lemma TilesCons(rest: seq<Window>, due: int, f: int, end: int)
    requires Tiles(rest, due + f, f, end) && due <= end
    ensures Tiles([Window(due, due + f)] + rest, due, f, end)
  {
    var ws := [Window(due, due + f)] + rest;
    forall i | 0 <= i < |ws| ensures ws[i] == Window(due + i * f, due + (i + 1) * f) && due + i * f <= end {
      if i > 0 {
        assert ws[i] == rest[i - 1];
        Periods(i, f);
      }
    }
  }

  lemma Periods(i: int, f: int)
    ensures f + (i - 1) * f == i * f && f + i * f == (i + 1) * f
  {
  }

  lemma TailNotReregistered(calls: seq<Call>, id: U64)
    requires calls != [] && NotReregistered(calls, id)
    ensures NotReregistered(calls[1..], id) && !(calls[0].op.RegisterOp? && calls[0].op.id == id)
  {
    assert forall i | 0 <= i < |calls| - 1 :: calls[1..][i] == calls[i + 1];
  }

  // The first call of a run, as far as the lease is concerned, and the rest of the run.
  lemma FirstWindow(b: Billing, calls: seq<Call>, id: U64)
    requires id in b.leases && NotReregistered(calls, id) && calls != []
    ensures NotReregistered(calls[1..], id)
    ensures var l, b' := b.leases[id], Apply(b, calls[0]);
            && id in b'.leases && SameTerms(l, b'.leases[id])
            && (if Bills(b, calls[0], id)
                then && Windows(b, calls, id) ==
                        [Window(NextDue(l), NextDue(l) + l.frequency)] + Windows(b', calls[1..], id)
                     && b'.leases[id].lastCycle == NextDue(l) <= l.endTime
                else Windows(b, calls, id) == Windows(b', calls[1..], id) && b'.leases[id].lastCycle == l.lastCycle)
  {
    TailNotReregistered(calls, id);
    StepOnLease(b, calls[0], id);
  }

  /**
   From any state of a lease whose start is positive, the i-th window billed from here on begins
   exactly i periods after the next due time, ends where the next begins, and begins by the end of
   the lease; when the calls happen plays no part.
   */
  lemma {:induction false} WindowsTile(b: Billing, calls: seq<Call>, id: U64)
    requires id in b.leases && Distinguished(b.leases[id]) && NotReregistered(calls, id)
    ensures Tiles(Windows(b, calls, id), NextDue(b.leases[id]), b.leases[id].frequency, b.leases[id].endTime)
    decreases |calls|
  {
    if calls == [] {
    } else {
      var l, b' := b.leases[id], Apply(b, calls[0]);
      FirstWindow(b, calls, id);
      WindowsTile(b', calls[1..], id);
      if Bills(b, calls[0], id) {
        TilesCons(Windows(b', calls[1..], id), NextDue(l), l.frequency, l.endTime);
      }
    }
  }

  /** A lease registered with a positive start and period is billed at most once per period it lasts. */
  lemma CycleCountBound(b: Billing, calls: seq<Call>, id: U64)
    requires id in b.leases && b.leases[id].lastCycle == 0 && Distinguished(b.leases[id])
    requires b.leases[id].frequency > 0 && NotReregistered(calls, id)
    ensures Bounded(b.leases[id], |Windows(b, calls, id)|)
  {
    var l := b.leases[id];
    WindowsTile(b, calls, id);
    TilesCount(Windows(b, calls, id), l.startTime, l.frequency, l.endTime);
  }

  lemma TilesCount(ws: seq<Window>, due: int, f: int, end: int)
    requires Tiles(ws, due, f, end) && f > 0
    ensures ws == [] || (due <= end && |ws| <= (end - due) / f + 1)
  {
    if ws != [] {
      var k := |ws| - 1;
      assert ws[k] == Window(due + k * f, due + (k + 1) * f) && due + k * f <= end;
      assert k * f >= 0;
      QuotientBelow(end - due, f, k);
    }
  }

  // ---- A start of zero ----

  predicate AllFirst(ws: seq<Window>, f: int) { forall i | 0 <= i < |ws| :: ws[i] == Window(0, f) }

  /** With a start of zero the sentinel is never left: every cycle bills the first window again. */
  lemma {:induction false} ZeroStartRepeats(b: Billing, calls: seq<Call>, id: U64)
    requires id in b.leases && b.leases[id].startTime == 0 && b.leases[id].lastCycle == 0
    requires NotReregistered(calls, id)
    ensures AllFirst(Windows(b, calls, id), b.leases[id].frequency)
    decreases |calls|
  {
    if calls == [] {
    } else {
      TailNotReregistered(calls, id);
      StepOnLease(b, calls[0], id);
      ZeroStartRepeats(Apply(b, calls[0]), calls[1..], id);
    }
  }

  // n cycles, all processed at the same moment.
  function RepeatCalls(id: U64, n: nat, now: U64): seq<Call> {
    if n == 0 then [] else [Call(now, ProcessOp(id, 0))] + RepeatCalls(id, n - 1, now)
  }

  // Billing is on for the lease, no cycle of it was processed yet, and no call is under way.
  predicate Billable(b: Billing, id: U64) {
    && id in b.leases && b.leases[id].active && b.leases[id].billingEnabled && b.leases[id].lastCycle == 0
    && !b.guard
  }

  // The counters can take n cycles of the given rent.
  predicate Room(b: Billing, id: U64, n: nat, rent: int)
    requires id in b.leases
  {
    FitsU64(b.cyclesProcessed + n) && FitsI128(b.leases[id].totalOwed + n * rent)
  }

  lemma OneOfMany(owed: int, rent: int, n: nat, m: nat)
    requires FitsI128(owed) && FitsI128(owed + n * rent) && m <= n
    ensures FitsI128(owed + m * rent)
    ensures n > 0 ==> owed + rent + (n - 1) * rent == owed + n * rent
  {
    assert rent >= 0 ==> 0 <= m * rent <= n * rent;
    assert rent <= 0 ==> n * rent <= m * rent <= 0;
  }

  lemma ZeroStartStep(b: Billing, id: U64, now: U64)
    requires Billable(b, id) && b.leases[id].startTime == 0
    requires var rent := RentFor(b.leases[id], Min(now, b.leases[id].endTime));
             FitsI128(rent) && FitsI128(b.leases[id].totalOwed + rent) && FitsU64(b.cyclesProcessed + 1)
    ensures var c, l := Call(now, ProcessOp(id, 0)), b.leases[id];
            var b', rent := Apply(b, c), RentFor(l, Min(now, l.endTime));
            && Bills(b, c, id) && Billable(b', id) && b'.leases[id] == l.(totalOwed := l.totalOwed + rent)
            && b'.cyclesProcessed == b.cyclesProcessed + 1
  {
    assert Duration(b.leases[id], now) == Min(now, b.leases[id].endTime);
  }

  /** n cycles at one moment are all accepted when the counters can take them, each charged in full. */
  lemma {:induction false} ZeroStartAccepts(b: Billing, id: U64, n: nat, now: U64)
    requires Billable(b, id) && b.leases[id].startTime == 0
    requires var rent := RentFor(b.leases[id], Min(now, b.leases[id].endTime));
             FitsI128(rent) && Room(b, id, n, rent)
    ensures var l, calls := b.leases[id], RepeatCalls(id, n, now);
            && NotReregistered(calls, id) && |Windows(b, calls, id)| == n
            && id in Run(b, calls).leases
            && Run(b, calls).leases[id].totalOwed == l.totalOwed + n * RentFor(l, Min(now, l.endTime))
    decreases n
  {
    var l, calls := b.leases[id], RepeatCalls(id, n, now);
    if n == 0 {
    } else {
      var rent := RentFor(l, Min(now, l.endTime));
      OneOfMany(l.totalOwed, rent, n, 1);
      ZeroStartStep(b, id, now);
      ZeroStartAccepts(Apply(b, calls[0]), id, n - 1, now);
      assert calls[1..] == RepeatCalls(id, n - 1, now);
    }
  }

  // The least that a cycle can add to the amount owed.
  function LeastRent(l: Lease): int { RentFor(l, 0) }

  // Whatever a run bills, the counters had room for it.
  lemma {:induction false} WindowsFit(b: Billing, calls: seq<Call>, id: U64)
    requires id in b.leases && NotReregistered(calls, id)
    ensures Room(b, id, |Windows(b, calls, id)|, LeastRent(b.leases[id]))
    decreases |calls|
  {
    if calls == [] {
    } else {
      var l, b', n := b.leases[id], Apply(b, calls[0]), |Windows(b, calls, id)|;
      TailNotReregistered(calls, id);
      StepOnLease(b, calls[0], id);
      WindowsFit(b', calls[1..], id);
      if Bills(b, calls[0], id) {
        assert |Windows(b', calls[1..], id)| == n - 1;
        OneMore(l, n - 1, b'.leases[id].totalOwed, Duration(l, calls[0].now));
      } else {
        assert Windows(b, calls, id) == Windows(b', calls[1..], id);
      }
    }
  }

  lemma OneMore(l: Lease, n: nat, owed: I128, duration: nat)
    requires owed == l.totalOwed + RentFor(l, duration) && FitsI128(owed + n * LeastRent(l))
    ensures FitsI128(l.totalOwed + (n + 1) * LeastRent(l))
  {
    assert l.rentPerSecond <= 0 ==> (n + 1) * LeastRent(l) == LeastRent(l) + n * LeastRent(l);
  }

  ghost predicate SomeRunBills(b: Billing, id: U64, n: nat) {
    exists calls :: NotReregistered(calls, id) && |Windows(b, calls, id)| == n
  }

  /** With a start of zero, n cycles can be billed, however long the lease, exactly while the counters last. */
  lemma ZeroStartUnbounded(b: Billing, id: U64, n: nat)
    requires Billable(b, id) && b.leases[id].startTime == 0
    ensures SomeRunBills(b, id, n) <==> Room(b, id, n, LeastRent(b.leases[id]))
  {
    if SomeRunBills(b, id, n) {
      var calls :| NotReregistered(calls, id) && |Windows(b, calls, id)| == n;
      WindowsFit(b, calls, id);
    }
    if Room(b, id, n, LeastRent(b.leases[id])) {
      ZeroStartAccepts(b, id, n, 0);
    }
  }

  ghost predicate AlwaysTiles(b: Billing, id: U64)
    requires id in b.leases
  {
    var l := b.leases[id];
    forall calls | NotReregistered(calls, id) ::
      Tiles(Windows(b, calls, id), l.startTime, l.frequency, l.endTime)
  }

  // At most one cycle per period of the lease.
  ghost predicate AlwaysBounded(b: Billing, id: U64)
    requires id in b.leases && b.leases[id].frequency > 0
  {
    forall calls | NotReregistered(calls, id) :: Bounded(b.leases[id], |Windows(b, calls, id)|)
  }

  predicate Bounded(l: Lease, n: nat)
    requires l.frequency > 0
  {
    n == 0 || (l.startTime <= l.endTime && n <= (l.endTime - l.startTime) / l.frequency + 1)
  }

  /**
   For a lease as registered, windows tile over every run exactly when its start is not zero,
   unless the counters have no room for a second cycle.
   */
  lemma TilingExact(b: Billing, id: U64)
    requires Billable(b, id) && b.leases[id].frequency > 0
    ensures AlwaysTiles(b, id) <==> b.leases[id].startTime > 0 || !Room(b, id, 2, LeastRent(b.leases[id]))
  {
    var l := b.leases[id];
    if l.startTime > 0 {
      forall calls | NotReregistered(calls, id)
        ensures Tiles(Windows(b, calls, id), l.startTime, l.frequency, l.endTime)
      {
        WindowsTile(b, calls, id);
      }
    } else if Room(b, id, 2, LeastRent(l)) {
      ZeroStartAccepts(b, id, 2, 0);
      var calls := RepeatCalls(id, 2, 0);
      ZeroStartRepeats(b, calls, id);
      SecondFirstWindow(Windows(b, calls, id), l.frequency, l.endTime);
    } else {
      forall calls | NotReregistered(calls, id)
        ensures Tiles(Windows(b, calls, id), l.startTime, l.frequency, l.endTime)
      {
        AtMostOnce(b, calls, id);
      }
    }
  }

  lemma SecondFirstWindow(ws: seq<Window>, f: int, end: int)
    requires |ws| == 2 && AllFirst(ws, f) && f > 0
    ensures !Tiles(ws, 0, f, end)
  {
    assert ws[1] == Window(0, f) != Window(0 + 1 * f, 0 + (1 + 1) * f);
  }

  // Without room for two cycles at most one is billed, and it is the first.
  lemma AtMostOnce(b: Billing, calls: seq<Call>, id: U64)
    requires Billable(b, id) && b.leases[id].startTime == 0 && NotReregistered(calls, id)
    requires !Room(b, id, 2, LeastRent(b.leases[id]))
    ensures Tiles(Windows(b, calls, id), 0, b.leases[id].frequency, b.leases[id].endTime)
  {
    var l, n := b.leases[id], |Windows(b, calls, id)|;
    WindowsFit(b, calls, id);
    ZeroStartRepeats(b, calls, id);
    if n >= 2 {
      OneOfMany(l.totalOwed, LeastRent(l), n, 2);
      assert false;
    }
  }

  /** The same for the number of cycles, with room for one more than the lease has periods. */
  lemma CountExact(b: Billing, id: U64)
    requires Billable(b, id) && b.leases[id].frequency > 0
    ensures var l := b.leases[id];
            AlwaysBounded(b, id) <==>
            l.startTime > 0 || !Room(b, id, l.endTime / l.frequency + 2, LeastRent(l))
  {
    var l := b.leases[id];
    var periods := l.endTime / l.frequency;
    if l.startTime > 0 {
      forall calls | NotReregistered(calls, id) ensures Bounded(l, |Windows(b, calls, id)|) {
        CycleCountBound(b, calls, id);
      }
    } else if Room(b, id, periods + 2, LeastRent(l)) {
      ZeroStartAccepts(b, id, periods + 2, 0);
      var calls := RepeatCalls(id, periods + 2, 0);
      assert !Bounded(l, |Windows(b, calls, id)|);
    } else {
      forall calls | NotReregistered(calls, id) ensures Bounded(l, |Windows(b, calls, id)|) {
        var n := |Windows(b, calls, id)|;
        WindowsFit(b, calls, id);
        if n >= periods + 2 {
          OneOfMany(l.totalOwed, LeastRent(l), n, periods + 2);
          assert false;
        }
      }
    }
  }

  /**
   What a caller can check at registration: with a positive period, and room in the counters for two
   cycles, every run bills each period at most once and without gaps exactly if the start is positive.
   */
  lemma RegistrationExact(b: Billing, id: U64, lessor: Address, rent: I128, perSecond: I128,
                          start: U64, end: U64, frequency: U64)
    requires !b.guard && frequency > 0 && Register(b, id, lessor, rent, perSecond, start, end, frequency).Ok?
    requires FitsU64(b.cyclesProcessed + 2) && (perSecond > 0 || FitsI128(2 * rent))
    ensures var b' := Register(b, id, lessor, rent, perSecond, start, end, frequency).value;
            id in b'.leases && (AlwaysTiles(b', id) && AlwaysBounded(b', id) <==> start > 0)
  {
    var b' := Register(b, id, lessor, rent, perSecond, start, end, frequency).value;
    TilingExact(b', id);
    CountExact(b', id);
  }

  /** Termination is final for a lease that is not registered again. */
  lemma {:induction false} TerminatedBillsNothing(b: Billing, calls: seq<Call>, id: U64)
    requires id in b.leases && !b.leases[id].active && NotReregistered(calls, id)
    ensures Windows(b, calls, id) == []
    decreases |calls|
  {
    if calls == [] {
    } else {
      TailNotReregistered(calls, id);
      StepOnLease(b, calls[0], id);
      TerminatedBillsNothing(Apply(b, calls[0]), calls[1..], id);
    }
  }

  /**
   An accepted termination is final: until the lease is registered again no run bills it, its amount
   owed stays, and a cycle is answered with LeaseNotActive.
   */
  lemma TerminationStops(b: Billing, id: U64, caller: Address, calls: seq<Call>, now: U64, sequence: nat)
    requires Terminate(b, id, caller).Ok? && NotReregistered(calls, id) && !b.guard
    ensures var b' := Terminate(b, id, caller).value;
            && Windows(b', calls, id) == []
            && id in b.leases && id in Run(b', calls).leases
            && Run(b', calls).leases[id].totalOwed == b.leases[id].totalOwed
            && Process(Run(b', calls), now, sequence, id) == Err(LeaseNotActive)
  {
    TerminateExact(b, id, caller);
    TerminatedBillsNothing(Terminate(b, id, caller).value, calls, id);
    InactiveStays(Terminate(b, id, caller).value, calls, id);
  }

  lemma {:induction false} InactiveStays(b: Billing, calls: seq<Call>, id: U64)
    requires id in b.leases && !b.leases[id].active && NotReregistered(calls, id) && !b.guard
    ensures var b' := Run(b, calls);
            id in b'.leases && !b'.leases[id].active && b'.leases[id].totalOwed == b.leases[id].totalOwed && !b'.guard
    decreases |calls|
  {
    if calls == [] {
    } else {
      TailNotReregistered(calls, id);
      StepOnLease(b, calls[0], id);
      InactiveStays(Apply(b, calls[0]), calls[1..], id);
    }
  }

  // ---- What is kept of a cycle ----

  // The last cycle that a run accepts under a ledger sequence number, on whatever lease.
  function LastUnder(b: Billing, calls: seq<Call>, sequence: nat): Option<Cycle>
    decreases |calls|
  {
    if calls == [] then None
    else
      var c, later := calls[0], LastUnder(Apply(b, calls[0]), calls[1..], sequence);
      if later.Some? then later
      else if c.op.ProcessOp? && c.op.sequence == sequence && Step(b, c).Ok?
      then Some(Step(b, c).value.cycles[sequence])
      else None
  }

  /** A record survives a run exactly until a cycle is accepted under its number, which replaces it. */
  lemma {:induction false} RecordKept(b: Billing, calls: seq<Call>, sequence: nat)
    ensures var last, cycles' := LastUnder(b, calls, sequence), Run(b, calls).cycles;
            if last.Some? then sequence in cycles' && cycles'[sequence] == last.value
            else (sequence in cycles' <==> sequence in b.cycles)
                 && (sequence in b.cycles ==> cycles'[sequence] == b.cycles[sequence])
    decreases |calls|
  {
    if calls == [] {
    } else {
      RecordKept(Apply(b, calls[0]), calls[1..], sequence);
    }
  }

  // ---- The module as the source runs it ----

  // Windows of length f, each begun where the one before ends; the next one is due at next.
  predicate Chained(ws: seq<Window>, due: int, f: int, end: int, next: int) {
    if ws == [] then next == due
    else
      var last := ws[|ws| - 1];
      next == last.end == last.start + f && last.start <= end && Chained(ws[..|ws| - 1], due, f, end, last.start)
  }

  /** A chain is a tiling whose next window is due after all its periods. */
  lemma {:induction false} ChainedExact(ws: seq<Window>, due: int, f: int, end: int, next: int)
    ensures Chained(ws, due, f, end, next) <==> Tiles(ws, due, f, end) && next == due + |ws| * f
  {
    if ws == [] {
    } else {
      var k := |ws| - 1;
      var init, last := ws[..k], ws[k];
      ChainedExact(init, due, f, end, last.start);
      Periods(k, f);
      assert Tiles(ws, due, f, end) <==>
             Tiles(init, due, f, end) && last == Window(due + k * f, due + (k + 1) * f) && due + k * f <= end;
    }
  }

  /**
   The windows billed on a lease since its registration: from a positive start they tile and the next
   one is due where the last one ends, from a start of zero all of them are the first.
   */
  predicate Scheduled(l: Lease, ws: seq<Window>) {
    if l.startTime > 0 then Chained(ws, l.startTime, l.frequency, l.endTime, NextDue(l))
    else AllFirst(ws, l.frequency) && NextDue(l) == 0
  }

  predicate AllScheduled(leases: map<U64, Lease>, billed: map<U64, seq<Window>>) {
    billed.Keys == leases.Keys && forall id | id in leases :: Scheduled(leases[id], billed[id])
  }

  lemma RegistrationScheduled(leases: map<U64, Lease>, billed: map<U64, seq<Window>>, id: U64, l: Lease)
    requires AllScheduled(leases, billed) && l.lastCycle == 0
    ensures AllScheduled(leases[id := l], billed[id := []])
  {
  }

  lemma CycleScheduled(leases: map<U64, Lease>, billed: map<U64, seq<Window>>, id: U64, l': Lease)
    requires AllScheduled(leases, billed) && id in leases && SameTerms(leases[id], l')
    requires l'.lastCycle == NextDue(leases[id]) <= l'.endTime
    ensures var w := Window(l'.lastCycle, l'.lastCycle + l'.frequency);
            AllScheduled(leases[id := l'], billed[id := billed[id] + [w]])
  {
    var ws, w := billed[id], Window(l'.lastCycle, l'.lastCycle + l'.frequency);
    assert Scheduled(leases[id], ws);
    assert (ws + [w])[..|ws|] == ws;
  }

  // The record of windows after an accepted cycle.
  function Record(billed: map<U64, seq<Window>>, id: U64, c: Cycle): map<U64, seq<Window>> {
    billed[id := (if id in billed then billed[id] else []) + [Window(c.start, c.end)]]
  }

  lemma BillScheduled(k: Books, billed: map<U64, seq<Window>>, now: U64, sequence: nat, id: U64)
    requires AllScheduled(k.leases, billed) && Bill(k, now, sequence, id).Ok?
    ensures var k' := Bill(k, now, sequence, id).value;
            AllScheduled(k'.leases, Record(billed, id, k'.cycles[sequence]))
  {
    CycleScheduled(k.leases, billed, id, Bill(k, now, sequence, id).value.leases[id]);
  }

  lemma TerminationScheduled(leases: map<U64, Lease>, billed: map<U64, seq<Window>>, id: U64, l': Lease)
    requires AllScheduled(leases, billed) && id in leases && SameTerms(leases[id], l')
    requires l'.lastCycle == leases[id].lastCycle
    ensures AllScheduled(leases[id := l'], billed)
  {
    assert Scheduled(leases[id], billed[id]);
  }

  class BillingModule {
    var admin: Address
    var leases: map<U64, Lease>
    var cycles: map<nat, Cycle>
    var enabled: bool
    var paused: bool
    var cyclesProcessed: U64
    var protection: bool
    var guard: bool
    ghost var billed: map<U64, seq<Window>> // since the registration of each lease

    function Stored(): Billing
      reads this
    {
      Billing(admin, leases, cycles, enabled, paused, cyclesProcessed, protection, guard)
    }

    // The guard is down between calls, and every lease has been billed by its schedule.
    ghost predicate Valid()
      reads this
    {
      !guard && AllScheduled(leases, billed)
    }

    constructor (admin: Address)
      ensures Stored() == Initialized(admin) && Valid()
    {
      this.admin, leases, cycles, enabled, paused := admin, map[], map[], true, false;
      cyclesProcessed, protection, guard, billed := 0, true, false, map[];
    }

    // Taking the guard fails when another call holds it.
    method EnterGuard() returns (ok: bool)
      modifies this`guard
      ensures ok <==> !(protection && old(guard))
      ensures guard == if ok && protection then true else old(guard)
    {
      if protection {
        if guard { return false; }
        guard := true;
      }
      return true;
    }

    method ExitGuard()
      modifies this`guard
      ensures guard == (old(guard) && !protection)
    {
      if protection { guard := false; }
    }

    method RegisterLease(id: U64, lessor: Address, rent: I128, perSecond: I128, start: U64, end: U64, frequency: U64)
      returns (r: Result<(), Error>)
      requires Valid()
      modifies this
      ensures Valid()
      ensures match Register(old(Stored()), id, lessor, rent, perSecond, start, end, frequency)
              case Ok(b) => Stored() == b && r == Ok(()) && billed == old(billed)[id := []]
              case Err(e) => Stored() == old(Stored()) && r == Err(e) && billed == old(billed)
    {
      if !enabled || paused { return Err(BillingNotEnabled); }
      var l := Lease(lessor, rent, perSecond, start, end, frequency, 0, true, true, 0);
      RegistrationScheduled(leases, billed, id, l);
      leases, billed := leases[id := l], billed[id := []];
      return Ok(());
    }

    // The cycle that is due, computed step by step in the widths of the source.
    static method ComputeCycle(id: U64, l: Lease, now: U64) returns (r: Result<Cycle, Error>)
      ensures r == DueCycle(id, l, now)
    {
      if !l.active || !l.billingEnabled { return Err(LeaseNotActive); }
      var due := l.startTime;
      if l.lastCycle != 0 {
        if !FitsU64(l.lastCycle + l.frequency) { return Err(HostAbort); }
        due := l.lastCycle + l.frequency;
      }
      if now < due { return Err(InvalidTimestamp); }
      if now > l.endTime && l.endTime < due { return Err(HostAbort); }
      var duration := if now > l.endTime then l.endTime - due else now - due;
      var rent := if l.rentPerSecond > 0 then l.rentPerSecond * duration else l.rentAmount;
      if !FitsI128(rent) || !FitsU64(due + l.frequency) { return Err(HostAbort); }
      return Ok(Cycle(id, rent, due, due + l.frequency, duration));
    }

    method BillCycle(now: U64, sequence: nat, id: U64) returns (r: Result<nat, Error>)
      modifies this`leases, this`cycles, this`cyclesProcessed
      ensures match Bill(old(Books(leases, cycles, cyclesProcessed)), now, sequence, id)
              case Ok(k) => Books(leases, cycles, cyclesProcessed) == k && r == Ok(sequence)
              case Err(e) => Books(leases, cycles, cyclesProcessed) == old(Books(leases, cycles, cyclesProcessed))
                             && r == Err(e)
    {
      if id !in leases { return Err(LeaseNotFound); }
      var l := leases[id];
      var cycle := ComputeCycle(id, l, now);
      if cycle.Err? { return Err(cycle.error); }
      var rent := cycle.value.rent;
      if !FitsI128(l.totalOwed + rent) || !FitsU64(cyclesProcessed + 1) { return Err(HostAbort); }
      cycles := cycles[sequence := cycle.value];
      l := l.(lastCycle := cycle.value.start);
      l := l.(totalOwed := l.totalOwed + rent);
      leases := leases[id := l];
      cyclesProcessed := cyclesProcessed + 1;
      return Ok(sequence);
    }

    // An accepted cycle appends the window that was due to those billed on its lease.
    method ProcessCycle(now: U64, sequence: nat, id: U64) returns (r: Result<nat, Error>)
      requires Valid()
      modifies this
      ensures Valid()
      ensures match Process(old(Stored()), now, sequence, id)
              case Ok(b) =>
                Stored() == b && r == Ok(sequence) && billed == Record(old(billed), id, b.cycles[sequence])
              case Err(e) => Stored() == old(Stored()) && r == Err(e) && billed == old(billed)
    {
      var before := guard; // what a rollback restores
      ghost var books := Books(leases, cycles, cyclesProcessed);
      var entered := EnterGuard();
      if !entered { return Err(ReentrancyDetected); }
      r := BillCycle(now, sequence, id);
      if r.Ok? {
        BillScheduled(books, billed, now, sequence, id);
        billed := Record(billed, id, cycles[sequence]);
        ExitGuard();
      } else {
        guard := before;
      }
    }

    method TerminateLease(id: U64, caller: Address) returns (r: Result<(), Error>)
      requires Valid()
      modifies this
      ensures Valid() && billed == old(billed)
      ensures match Terminate(old(Stored()), id, caller)
              case Ok(b) => Stored() == b && r == Ok(())
              case Err(e) => Stored() == old(Stored()) && r == Err(e)
      ensures r.Ok? ==> id in leases && !leases[id].active && !leases[id].billingEnabled
    {
      var before := guard;
      var entered := EnterGuard();
      if !entered { return Err(ReentrancyDetected); }
      if id !in leases { guard := before; return Err(LeaseNotFound); }
      var l := leases[id];
      if caller != l.lessor && caller != admin { ExitGuard(); return Err(Unauthorized); }
      l := l.(active := false, billingEnabled := false);
      TerminationScheduled(leases, billed, id, l);
      leases := leases[id := l];
      ExitGuard();
      return Ok(());
    }

    method SetPause(caller: Address, pause: bool) returns (r: Result<(), Error>)
      requires Valid()
      modifies this`paused
      ensures Valid()
      ensures match TogglePause(old(Stored()), caller, pause)
              case Ok(b) => Stored() == b && r == Ok(())
              case Err(e) => Stored() == old(Stored()) && r == Err(e)
    {
      if caller != admin { return Err(Unauthorized); }
      paused := pause;
      return Ok(());
    }
  }
}
