/**
 Order independence: lease creations on the escrow tracker, and the batches that
 fuzz/fuzz_targets/fuzz_concurrent_operations.rs executes in different orders.
 */
module OperationOrder {
  import opened Arith
  import opened EscrowLedger

  // ---- Lease creations ----

  // Apply creations one after the other, stopping at the first failure.
  function Creations(e: Escrow, deposits: seq<I128>): Result<Escrow, Violation>
    decreases |deposits|
  {
    if deposits == [] then Ok(e)
    else
      var r := Creation(e, deposits[0]);
      if r.Err? then r else Creations(r.value, deposits[1..])
  }

  function Deposit(d: I128): int { d }
  function Loss(d: I128): int { CreationLoss(d) }

  // Every prefix leaves something in escrow, so the lease-count rule is met at each step.
  predicate Admissible(e: Escrow, deposits: seq<I128>) {
    && (forall i | 0 <= i < |deposits| :: deposits[i] >= 0)
    && (e.total > 0 || forall i | 0 <= i < |deposits| :: deposits[i] > 0)
  }

  // Success and result of n creations, in terms of their total deposit and precision loss only.
  predicate Grown(e: Escrow, sum: int, n: nat, loss: int, r: Result<Escrow, Violation>) {
    && (r.Ok? <==> FitsI128(e.total + sum) && FitsU64(e.leaseCount + n) && FitsI128(e.precisionLoss + loss))
    && (r.Ok? ==>
          && r.value.total == e.total + sum && r.value.active == e.active + sum && r.value.vault == e.vault + sum
          && r.value.leaseCount == e.leaseCount + n && r.value.precisionLoss == e.precisionLoss + loss
          && r.value.pending == e.pending && r.value.disputed == e.disputed && r.value.dust == e.dust)
  }

  lemma GrownStep(e: Escrow, d: I128, sum: int, n: nat, loss: int, r: Result<Escrow, Violation>)
    requires Solvent(e) && d >= 0 && e.total + d > 0 && sum >= 0 && loss >= 0
    requires var r1 := Creation(e, d); if r1.Err? then r.Err? else Grown(r1.value, sum, n, loss, r)
    ensures Grown(e, d + sum, n + 1, CreationLoss(d) + loss, r)
  {
    CreationExact(e, d);
  }

  /** A batch of creations in closed form: only the sums of the deposits matter. */
  lemma {:induction false} CreationsClosedForm(e: Escrow, deposits: seq<I128>)
    requires Solvent(e) && Admissible(e, deposits)
    ensures Grown(e, SumBy(deposits, Deposit), |deposits|, SumBy(deposits, Loss), Creations(e, deposits))
    decreases |deposits|
  {
    if deposits == [] {
    } else {
      var rest := deposits[1..];
      SumByNonNegative(rest, Deposit);
      SumByNonNegative(rest, Loss);
      CreationExact(e, deposits[0]);
      var r1 := Creation(e, deposits[0]);
      if r1.Ok? {
        CreationsClosedForm(r1.value, rest);
      }
      GrownStep(e, deposits[0], SumBy(rest, Deposit), |rest|, SumBy(rest, Loss), Creations(e, deposits));
    }
  }

  /** Any two orderings of the same deposits agree on success and on the final escrow. */
  lemma CreationsOrderIndependent(e: Escrow, deposits: seq<I128>, reordered: seq<I128>)
    requires Solvent(e) && Admissible(e, deposits) && multiset(deposits) == multiset(reordered)
    ensures Creations(e, deposits).Ok? <==> Creations(e, reordered).Ok?
    ensures Creations(e, deposits).Ok? ==> Creations(e, deposits) == Creations(e, reordered)
  {
    assert |deposits| == |multiset(deposits)| == |multiset(reordered)| == |reordered|;
    assert Admissible(e, reordered) by {
      forall i | 0 <= i < |reordered| ensures reordered[i] in multiset(deposits) {
        assert reordered[i] in multiset(reordered);
      }
    }
    SumByPermutation(deposits, reordered, Deposit);
    SumByPermutation(deposits, reordered, Loss);
    CreationsClosedForm(e, deposits);
    CreationsClosedForm(e, reordered);
    GrownDetermines(e, SumBy(deposits, Deposit), |deposits|, SumBy(deposits, Loss),
                    Creations(e, deposits), Creations(e, reordered));
  }

  lemma GrownDetermines(e: Escrow, sum: int, n: nat, loss: int,
                        r: Result<Escrow, Violation>, r': Result<Escrow, Violation>)
    requires Grown(e, sum, n, loss, r) && Grown(e, sum, n, loss, r')
    ensures r.Ok? <==> r'.Ok?
    ensures r.Ok? ==> r == r'
  {
  }

  // ---- Where the order of creations matters ----

  // All counters can take the whole batch.
  predicate SumsFit(e: Escrow, deposits: seq<I128>) {
    && FitsI128(e.total + SumBy(deposits, Deposit)) && FitsU64(e.leaseCount + |deposits|)
    && FitsI128(e.precisionLoss + SumBy(deposits, Loss))
  }

  // What every batch that succeeds satisfies, however it is ordered.
  lemma {:induction false} SuccessShape(e: Escrow, deposits: seq<I128>)
    requires Solvent(e) && Creations(e, deposits).Ok?
    ensures SumsFit(e, deposits) && forall i | 0 <= i < |deposits| :: deposits[i] >= 0
    ensures e.total == 0 && deposits != [] ==> deposits[0] > 0
    decreases |deposits|
  {
    if deposits == [] {
    } else {
      CreationExact(e, deposits[0]);
      SuccessShape(Creation(e, deposits[0]).value, deposits[1..]);
    }
  }

  // deposits with the i-th moved to the front
  function ToFront(deposits: seq<I128>, i: nat): seq<I128>
    requires i < |deposits|
  {
    [deposits[i]] + (deposits[..i] + deposits[i + 1..])
  }

  lemma ToFrontExact(deposits: seq<I128>, i: nat)
    requires i < |deposits|
    ensures multiset(ToFront(deposits, i)) == multiset(deposits) && |ToFront(deposits, i)| == |deposits|
    ensures ToFront(deposits, i)[1..] == deposits[..i] + deposits[i + 1..]
  {
    assert deposits == deposits[..i] + [deposits[i]] + deposits[i + 1..];
  }

  lemma PositiveFirstSucceeds(e: Escrow, deposits: seq<I128>, i: nat)
    requires Solvent(e) && SumsFit(e, deposits) && forall k | 0 <= k < |deposits| :: deposits[k] >= 0
    requires i < |deposits| && deposits[i] > 0
    ensures Creations(e, ToFront(deposits, i)).Ok?
  {
    var d, rest := deposits[i], deposits[..i] + deposits[i + 1..];
    ToFrontExact(deposits, i);
    SumByRemoveAt(deposits, Deposit, i);
    SumByRemoveAt(deposits, Loss, i);
    SumByNonNegative(rest, Deposit);
    SumByNonNegative(rest, Loss);
    CreationExact(e, d);
    var r1 := Creation(e, d);
    if r1.Ok? {
      CreationsClosedForm(r1.value, rest);
    }
    GrownStep(e, d, SumBy(rest, Deposit), |rest|, SumBy(rest, Loss), Creations(e, ToFront(deposits, i)));
  }

  lemma ZeroFirstFails(e: Escrow, deposits: seq<I128>, i: nat)
    requires Solvent(e) && e.total == 0 && i < |deposits| && deposits[i] == 0
    ensures Creations(e, ToFront(deposits, i)).Err?
  {
    CreationExact(e, 0);
  }

  ghost predicate OrderMatters(e: Escrow, deposits: seq<I128>) {
    exists p: seq<I128>, q: seq<I128> ::
      multiset(p) == multiset(q) == multiset(deposits) && Creations(e, p).Ok? && Creations(e, q).Err?
  }

  /**
   One ordering of a batch succeeds and another fails exactly when the escrow is empty, the batch has
   a zero deposit among non-negative ones that are not all zero, and the counters can take it.
   */
  lemma OrderMattersExactly(e: Escrow, deposits: seq<I128>)
    requires Solvent(e)
    ensures OrderMatters(e, deposits) <==>
            && e.total == 0 && SumsFit(e, deposits)
            && (forall i | 0 <= i < |deposits| :: deposits[i] >= 0)
            && (exists i :: 0 <= i < |deposits| && deposits[i] == 0)
            && (exists i :: 0 <= i < |deposits| && deposits[i] > 0)
  {
    if OrderMatters(e, deposits) {
      var p: seq<I128>, q: seq<I128> :|
        multiset(p) == multiset(q) == multiset(deposits) && Creations(e, p).Ok? && Creations(e, q).Err?;
      SuccessShape(e, p);
      SamePermutation(deposits, p);
      SumByPermutation(deposits, p, Deposit);
      SumByPermutation(deposits, p, Loss);
      if Admissible(e, p) {
        CreationsOrderIndependent(e, p, q);
        assert false;
      }
      var i :| 0 <= i < |p| && p[i] <= 0;
      assert p[i] in deposits && p[0] in deposits;
    }
    if && e.total == 0 && SumsFit(e, deposits) && (forall k | 0 <= k < |deposits| :: deposits[k] >= 0)
       && (exists i :: 0 <= i < |deposits| && deposits[i] == 0)
       && (exists i :: 0 <= i < |deposits| && deposits[i] > 0)
    {
      var i :| 0 <= i < |deposits| && deposits[i] == 0;
      var j :| 0 <= j < |deposits| && deposits[j] > 0;
      PositiveFirstSucceeds(e, deposits, j);
      ZeroFirstFails(e, deposits, i);
      ToFrontExact(deposits, i);
      ToFrontExact(deposits, j);
    }
  }

  lemma SamePermutation(s: seq<I128>, t: seq<I128>)
    requires multiset(s) == multiset(t)
    ensures |s| == |t|
    ensures (forall i | 0 <= i < |s| :: s[i] in t) && (forall i | 0 <= i < |t| :: t[i] in s)
  {
    assert |s| == |multiset(s)| && |t| == |multiset(t)|;
    assert forall i | 0 <= i < |s| :: s[i] in multiset(s);
    assert forall i | 0 <= i < |t| :: t[i] in multiset(t);
  }

  // ---- The fuzzer's batches: CreateLease and DepositCollateral ----

  datatype Shared = Shared(total: I128, active: I128, pending: I128, disputed: I128, vault: I128, leaseCount: U64)

  datatype Op =
    | CreateLease(leaseId: U64, amount: I128)
    | DepositCollateral(leaseId: U64, amount: I128)

  datatype OpError =
    | NegativeDeposit
    | InvariantViolation
    | Abort // a sum passed to the modification table, or the lease count, overflowed

  // verify_concurrent_invariant: as the tracker's check, without the lease-count rule.
  predicate Consistent(s: Shared) {
    && s.total == s.active + s.pending + s.disputed && s.vault == s.total
    && s.active >= 0 && s.pending >= 0 && s.disputed >= 0
  }

  function NewLeases(op: Op): int { if op.CreateLease? then 1 else 0 }
  function Amount(op: Op): int { op.amount }

  // The two arms of apply_concurrent_operation.
  function AddTo(s: Shared, op: Op): Result<Shared, OpError> {
    if op.amount < 0 then Err(NegativeDeposit)
    else if !FitsI128(s.total + op.amount) || !FitsI128(s.active + op.amount) || !FitsI128(s.vault + op.amount)
            || !FitsU64(s.leaseCount + NewLeases(op)) then Err(Abort)
    else
      Ok(s.(total := s.total + op.amount, active := s.active + op.amount, vault := s.vault + op.amount,
            leaseCount := s.leaseCount + NewLeases(op)))
  }

  // apply_concurrent_operation, its effect on the amounts.
  function ApplyOp(s: Shared, op: Op): Result<Shared, OpError> {
    var s' :- AddTo(s, op);
    if Consistent(s') then Ok(s') else Err(InvariantViolation)
  }

  function RunBatch(s: Shared, ops: seq<Op>): Result<Shared, OpError>
    decreases |ops|
  {
    if ops == [] then Ok(s)
    else
      var r := ApplyOp(s, ops[0]);
      if r.Err? then r else RunBatch(r.value, ops[1..])
  }

  /** An operation is decided by its amount and the totals, and adds the amount to total, active and vault. */
  lemma OperationExact(s: Shared, op: Op)
    requires Consistent(s)
    ensures var r := ApplyOp(s, op);
            && (r == Err(NegativeDeposit) <==> op.amount < 0) && r != Err(InvariantViolation)
            && (r.Ok? <==>
                && op.amount >= 0 && FitsI128(s.total + op.amount)
                && (op.CreateLease? ==> FitsU64(s.leaseCount + 1)))
            && (r.Ok? ==>
                  && r.value.total - s.total == op.amount && r.value.active - s.active == op.amount
                  && r.value.vault - s.vault == op.amount
                  && r.value.pending == s.pending && r.value.disputed == s.disputed
                  && r.value.leaseCount == (if op.CreateLease? then s.leaseCount + 1 else s.leaseCount))
  {
  }

  predicate NonNegative(ops: seq<Op>) { forall i | 0 <= i < |ops| :: ops[i].amount >= 0 }

  // Success and result of a batch, in terms of its sums only.
  predicate Batched(s: Shared, legal: bool, sum: int, count: int, r: Result<Shared, OpError>) {
    && (r.Ok? <==> legal && FitsI128(s.total + sum) && FitsU64(s.leaseCount + count))
    && (r.Ok? ==>
          && r.value.total == s.total + sum && r.value.active == s.active + sum && r.value.vault == s.vault + sum
          && r.value.pending == s.pending && r.value.disputed == s.disputed
          && r.value.leaseCount == s.leaseCount + count)
  }

  lemma BatchedStep(s: Shared, op: Op, legal: bool, sum: int, count: int, r: Result<Shared, OpError>)
    requires Consistent(s) && (legal ==> sum >= 0) && count >= 0
    requires var r1 := ApplyOp(s, op);
             if r1.Err? then r.Err? else Batched(r1.value, legal, sum, count, r)
    ensures Batched(s, op.amount >= 0 && legal, op.amount + sum, NewLeases(op) + count, r)
  {
  }

  lemma {:induction false} BatchClosedForm(s: Shared, ops: seq<Op>)
    requires Consistent(s)
    ensures Batched(s, NonNegative(ops), SumBy(ops, Amount), SumBy(ops, NewLeases), RunBatch(s, ops))
    decreases |ops|
  {
    if ops == [] {
    } else {
      var rest := ops[1..];
      assert NonNegative(ops) <==> ops[0].amount >= 0 && NonNegative(rest) by {
        assert forall i | 0 < i < |ops| :: ops[i] == rest[i - 1];
      }
      SumByNonNegative(rest, NewLeases);
      if NonNegative(rest) { SumByNonNegative(rest, Amount); }
      var r1 := ApplyOp(s, ops[0]);
      if r1.Ok? { BatchClosedForm(r1.value, rest); }
      BatchedStep(s, ops[0], NonNegative(rest), SumBy(rest, Amount), SumBy(rest, NewLeases), RunBatch(s, ops));
    }
  }

  /** Whatever the amounts, reordering a batch changes neither its success nor its result. */
  lemma BatchOrderIndependent(s: Shared, ops: seq<Op>, reordered: seq<Op>)
    requires Consistent(s) && multiset(ops) == multiset(reordered)
    ensures RunBatch(s, ops).Ok? <==> RunBatch(s, reordered).Ok?
    ensures RunBatch(s, ops).Ok? ==> RunBatch(s, ops) == RunBatch(s, reordered)
  {
    SumByPermutation(ops, reordered, Amount);
    SumByPermutation(ops, reordered, NewLeases);
    forall i | 0 <= i < |reordered| ensures reordered[i] in ops {
      assert reordered[i] in multiset(reordered);
    }
    forall i | 0 <= i < |ops| ensures ops[i] in reordered {
      assert ops[i] in multiset(ops);
    }
    BatchClosedForm(s, ops);
    BatchClosedForm(s, reordered);
  }

  // ---- Execution orders ----

  datatype ExecutionOrder = Sequential | Random | Reverse | Interleaved

  method ReverseOf<T>(ops: seq<T>) returns (r: seq<T>)
    ensures |r| == |ops| && forall k | 0 <= k < |ops| :: r[k] == ops[|ops| - 1 - k]
    ensures multiset(r) == multiset(ops)
  {
    r := [];
    for i := 0 to |ops|
      invariant |r| == i && forall k | 0 <= k < i :: r[k] == ops[i - 1 - k]
      invariant multiset(r) == multiset(ops[..i])
    {
      r := [ops[i]] + r;
      assert ops[..i + 1] == ops[..i] + [ops[i]];
    }
    assert ops[..|ops|] == ops;
  }

  // First, last, second, last but one, ...
  function Interleaving<T>(ops: seq<T>): seq<T> {
    if |ops| < 2 then ops
    else [ops[0], ops[|ops| - 1]] + Interleaving(ops[1..|ops| - 1])
  }

  lemma {:induction false} InterleavingIsPermutation<T>(ops: seq<T>)
    ensures multiset(Interleaving(ops)) == multiset(ops)
  {
    if |ops| < 2 {
    } else {
      var middle := ops[1..|ops| - 1];
      assert ops == [ops[0]] + middle + [ops[|ops| - 1]];
      InterleavingIsPermutation(middle);
    }
  }

  /** The interleaving alternates between the front and the back of the batch. */
  lemma {:induction false} InterleavingAt<T>(ops: seq<T>, k: nat)
    requires k < |ops|
    ensures k < |Interleaving(ops)|
    ensures Interleaving(ops)[k] == if k % 2 == 0 then ops[k / 2] else ops[|ops| - 1 - k / 2]
  {
    InterleavingLength(ops);
    if |ops| >= 2 && k >= 2 {
      var middle := ops[1..|ops| - 1];
      InterleavingLength(middle);
      InterleavingAt(middle, k - 2);
      assert Interleaving(ops)[k] == Interleaving(middle)[k - 2];
      Halves(k);
    }
  }

  lemma Halves(k: nat)
    requires k >= 2
    ensures (k - 2) % 2 == k % 2 && (k - 2) / 2 == k / 2 - 1
  {
  }

  lemma {:induction false} InterleavingLength<T>(ops: seq<T>)
    ensures |Interleaving(ops)| == |ops|
  {
    if |ops| < 2 {
    } else {
      InterleavingLength(ops[1..|ops| - 1]);
    }
  }

  lemma InterleavingPeel<T>(ops: seq<T>, i: nat, j: nat)
    requires i <= j < |ops|
    ensures Interleaving(ops[i..j + 1]) ==
            if i == j then [ops[i]] else [ops[i]] + [ops[j]] + Interleaving(ops[i + 1..j])
  {
    if i < j {
      var inner := ops[i..j + 1][1..j - i];
      assert |inner| == j - i - 1;
      assert forall k | 0 <= k < |inner| :: inner[k] == ops[i + 1 + k] == ops[i + 1..j][k];
      assert inner == ops[i + 1..j];
    }
  }

  lemma InterleavingStep<T>(ops: seq<T>, out: seq<T>, i: nat, j: nat)
    requires i <= j < |ops| && out + Interleaving(ops[i..j + 1]) == Interleaving(ops)
    ensures i == j ==> out + [ops[i]] == Interleaving(ops)
    ensures i < j ==> out + [ops[i]] + [ops[j]] + Interleaving(ops[i + 1..j]) == Interleaving(ops)
  {
    InterleavingPeel(ops, i, j);
    if i < j {
      PushTwo(out, ops[i], ops[j], Interleaving(ops[i + 1..j]));
    }
  }

  lemma PushTwo<T>(out: seq<T>, x: T, y: T, rest: seq<T>)
    ensures out + ([x] + [y] + rest) == out + [x] + [y] + rest
  {
  }

  /**
   The two-pointer loop. Its unsigned index runs below zero, and the call aborts, exactly for
   batches of fewer than two operations.
   */
  method Interleave<T>(ops: seq<T>) returns (r: Option<seq<T>>)
    ensures r == if |ops| < 2 then None else Some(Interleaving(ops))
  {
    if |ops| == 0 { return None; }
    var out: seq<T> := [];
    var i, j := 0, |ops| - 1;
    assert ops[0..|ops|] == ops;
    while i <= j
      invariant 0 <= i <= j + 2 && i + j == |ops| - 1
      invariant i <= j + 1 ==> out + Interleaving(ops[i..j + 1]) == Interleaving(ops)
      invariant i == j + 2 ==> out == Interleaving(ops)
      invariant |ops| == 1 ==> i == 0
      decreases j - i + 2
    {
      InterleavingStep(ops, out, i, j);
      out := out + [ops[i]];
      if i != j {
        out := out + [ops[j]];
      }
      if j == 0 { return None; }
      i := i + 1;
      j := j - 1;
    }
    assert i == j + 1 ==> out + Interleaving(ops[i..j + 1]) == out;
    return Some(out);
  }

  // ---- The operation log ----

  datatype LogEntry = LogEntry(op: Op, before: Shared, after: Shared)

  const START: Shared := Shared(0, 0, 0, 0, 0, 0)

  // Every entry records an accepted operation on the state that the entries before it lead to.
  predicate Logged(log: seq<LogEntry>, s: Shared) {
    if log == [] then s == START
    else
      var last := log[|log| - 1];
      last.after == s && ApplyOp(last.before, last.op) == Ok(s) && Logged(log[..|log| - 1], last.before)
  }

  lemma AcceptedConsistent(s: Shared, op: Op)
    ensures ApplyOp(s, op).Ok? ==> Consistent(ApplyOp(s, op).value)
  {
  }

  lemma {:induction false} LoggedConsistent(log: seq<LogEntry>, s: Shared)
    requires Logged(log, s)
    ensures Consistent(s)
  {
    if log == [] {
    } else {
      AcceptedConsistent(log[|log| - 1].before, log[|log| - 1].op);
    }
  }

  lemma {:induction false} LoggedMore(log: seq<LogEntry>, s: Shared, op: Op, s': Shared)
    requires Logged(log, s) && ApplyOp(s, op) == Ok(s')
    ensures Logged(log + [LogEntry(op, s, s')], s')
  {
    assert (log + [LogEntry(op, s, s')])[..|log|] == log;
  }

  // An operation on the state that the log leads to is accepted or refused, and never breaks the invariant.
  lemma {:induction false} OperationLogged(log: seq<LogEntry>, s: Shared, op: Op)
    requires Logged(log, s)
    ensures AddTo(s, op) == ApplyOp(s, op)
    ensures ApplyOp(s, op).Ok? ==> var s' := ApplyOp(s, op).value; Logged(log + [LogEntry(op, s, s')], s')
  {
    LoggedConsistent(log, s);
    OperationExact(s, op);
    if ApplyOp(s, op).Ok? {
      LoggedMore(log, s, op, ApplyOp(s, op).value);
    }
  }

  function OpsOf(log: seq<LogEntry>): seq<Op> { seq(|log|, i requires 0 <= i < |log| => log[i].op) }

  lemma {:induction false} RunBatchAppend(s: Shared, ops: seq<Op>, op: Op)
    ensures RunBatch(s, ops + [op]) ==
            var r := RunBatch(s, ops); if r.Err? then r else ApplyOp(r.value, op)
    decreases |ops|
  {
    if ops == [] {
      assert ([] + [op])[1..] == [];
    } else {
      assert (ops + [op])[1..] == ops[1..] + [op];
      var r := ApplyOp(s, ops[0]);
      if r.Ok? {
        RunBatchAppend(r.value, ops[1..], op);
      }
    }
  }

  // The log grew by the given operations.
  predicate Extends(log: seq<LogEntry>, log': seq<LogEntry>, ops: seq<Op>) {
    |log'| == |log| + |ops| && log'[..|log|] == log && OpsOf(log'[|log|..]) == ops
  }

  lemma ExtendsMore(log: seq<LogEntry>, log': seq<LogEntry>, ops: seq<Op>, i: nat, entry: LogEntry)
    requires i < |ops| && entry.op == ops[i] && Extends(log, log', ops[..i])
    ensures Extends(log, log' + [entry], ops[..i + 1])
  {
    assert (log' + [entry])[..|log|] == log;
    assert OpsOf((log' + [entry])[|log|..]) == OpsOf(log'[|log|..]) + [entry.op] == ops[..i + 1];
  }

  /** Replaying the operations of the log from the start gives the current state. */
  lemma {:induction false} LogReplays(log: seq<LogEntry>, s: Shared)
    requires Logged(log, s)
    ensures RunBatch(START, OpsOf(log)) == Ok(s)
    decreases |log|
  {
    if log == [] {
      assert OpsOf(log) == [];
    } else {
      var init, last := log[..|log| - 1], log[|log| - 1];
      LogReplays(init, last.before);
      assert OpsOf(log) == OpsOf(init) + [last.op];
      RunBatchAppend(START, OpsOf(init), last.op);
    }
  }

  class ConcurrentEscrow {
    var total: I128
    var active: I128
    var pending: I128
    var disputed: I128
    var vault: I128
    var leaseCount: U64
    var log: seq<LogEntry>

    function State(): Shared
      reads this
    {
      Shared(total, active, pending, disputed, vault, leaseCount)
    }

    predicate Valid()
      reads this
    {
      Logged(log, State())
    }

    constructor ()
      ensures State() == START && log == [] && Valid()
    {
      total, active, pending, disputed, vault, leaseCount, log := 0, 0, 0, 0, 0, 0, [];
    }

    // The arms of the operation, before logging.
    method AddAmount(op: Op) returns (r: Result<(), OpError>)
      modifies this`total, this`active, this`vault, this`leaseCount
      ensures match AddTo(old(State()), op)
              case Ok(s) => r == Ok(()) && State() == s
              case Err(e) => r == Err(e) && (e != Abort ==> State() == old(State()))
    {
      if op.amount < 0 { return Err(NegativeDeposit); }
      if !FitsI128(total + op.amount) { return Err(Abort); }
      if !FitsI128(active + op.amount) { return Err(Abort); }
      if !FitsI128(vault + op.amount) { return Err(Abort); }
      total, active, vault := total + op.amount, active + op.amount, vault + op.amount;
      if op.CreateLease? {
        if !FitsU64(leaseCount + 1) { return Err(Abort); }
        leaseCount := leaseCount + 1;
      }
      return Ok(());
    }

    /**
     A negative amount is refused and leaves everything as it was; the check of the invariant, made
     after logging, never fails. An abort ends the process, so nothing is said of the state after one.
     */
    method ApplyOperation(op: Op) returns (r: Result<(), OpError>)
      requires Valid()
      modifies this
      ensures r != Err(Abort) ==> Valid()
      ensures r != Err(InvariantViolation)
      ensures match ApplyOp(old(State()), op)
              case Ok(s) => r == Ok(()) && State() == s && log == old(log) + [LogEntry(op, old(State()), s)]
              case Err(e) => r == Err(e) && (e != Abort ==> State() == old(State()) && log == old(log))
    {
      var before := State();
      OperationLogged(log, before, op);
      r := AddAmount(op);
      if r.Err? { return; }
      log := log + [LogEntry(op, before, State())];
      if !Consistent(State()) { return Err(InvariantViolation); }
    }

    method ExecuteAll(ordered: seq<Op>) returns (r: Result<(), OpError>)
      requires Valid()
      modifies this
      ensures r != Err(Abort) ==> Valid()
      ensures match RunBatch(old(State()), ordered)
              case Ok(s) => r == Ok(()) && State() == s && Extends(old(log), log, ordered)
              case Err(e) => r == Err(e)
    {
      for i := 0 to |ordered|
        invariant Valid()
        invariant RunBatch(old(State()), ordered) == RunBatch(State(), ordered[i..])
        invariant Extends(old(log), log, ordered[..i])
      {
        ghost var before := log;
        var one := ApplyOperation(ordered[i]);
        assert ordered[i..][1..] == ordered[i + 1..];
        if one.Err? { return one; }
        ExtendsMore(old(log), before, ordered, i, log[|before|]);
      }
      assert ordered[..|ordered|] == ordered;
      return Ok(());
    }

    /**
     execute_operations_in_order. Whatever order is chosen, the batch succeeds, and ends in the
     state, that executing it as given would; the log then holds the batch in the order executed.
     sorted is the result of the library sort, a permutation; None stands for the abort of the
     interleaving loop.
     */
    method ExecuteInOrder(ops: seq<Op>, order: ExecutionOrder, sorted: seq<Op>) returns (r: Option<Result<(), OpError>>)
      requires Valid() && multiset(sorted) == multiset(ops)
      modifies this
      ensures r.None? <==> order == Interleaved && |ops| < 2
      ensures r != Some(Err(Abort)) ==> Valid()
      ensures r.Some? ==> (r.value.Ok? <==> RunBatch(old(State()), ops).Ok?)
      ensures r.Some? && r.value.Ok? ==>
                && RunBatch(old(State()), ops) == Ok(State())
                && exists ordered :: multiset(ordered) == multiset(ops) && Extends(old(log), log, ordered)
    {
      var ordered := ops;
      match order {
        case Sequential =>
        case Random => ordered := sorted;
        case Reverse => ordered := ReverseOf(ops);
        case Interleaved =>
          var mixed := Interleave(ops);
          if mixed.None? { return None; }
          ordered := mixed.value;
          InterleavingIsPermutation(ops);
      }
      LoggedConsistent(log, State());
      BatchOrderIndependent(State(), ops, ordered);
      var done := ExecuteAll(ordered);
      assert |ordered| == |multiset(ordered)| == |multiset(ops)| == |ops|;
      return Some(done);
    }
  }
}
