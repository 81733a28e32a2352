/**
 What continuous billing charges over a whole run
 (contracts/leaseflow_contracts/src/continuous_billing_module.rs): each cycle is charged from its
 window's start until it is processed, so a cycle processed late is charged into the next window.
 */
module BillingCharges {
  import opened Arith
  import opened ContinuousBilling

  // The time that each accepted cycle of a run is charged for.
  function Charges(b: Billing, calls: seq<Call>, id: U64): seq<Window>
    requires id in b.leases && NotReregistered(calls, id)
    decreases |calls|
  {
    if calls == [] then []
    else
      var l, c := b.leases[id], calls[0];
      TailNotReregistered(calls, id);
      StepOnLease(b, c, id);
      (if Bills(b, c, id) then [ChargeOf(l, c.now)] else []) + Charges(Apply(b, c), calls[1..], id)
  }

  // A cycle is charged until now or the end of the lease.
  function ChargeOf(l: Lease, now: U64): Window { Window(NextDue(l), Min(now, l.endTime)) }

  // The first call of a run and the rest of it.
  lemma FirstCall(b: Billing, calls: seq<Call>, id: U64)
    requires id in b.leases && NotReregistered(calls, id) && calls != []
    ensures id in Apply(b, calls[0]).leases && NotReregistered(calls[1..], id)
    ensures Apply(b, calls[0]).leases[id].endTime == b.leases[id].endTime
    ensures var charge := ChargeOf(b.leases[id], calls[0].now);
            Bills(b, calls[0], id) ==> charge.start == WindowOf(b, calls[0], id).start && charge.start <= charge.end
    ensures if Bills(b, calls[0], id)
            then && Charges(b, calls, id) ==
                    [ChargeOf(b.leases[id], calls[0].now)] + Charges(Apply(b, calls[0]), calls[1..], id)
                 && Windows(b, calls, id) ==
                    [WindowOf(b, calls[0], id)] + Windows(Apply(b, calls[0]), calls[1..], id)
            else && Charges(b, calls, id) == Charges(Apply(b, calls[0]), calls[1..], id)
                 && Windows(b, calls, id) == Windows(Apply(b, calls[0]), calls[1..], id)
  {
    TailNotReregistered(calls, id);
    StepOnLease(b, calls[0], id);
  }

  function Length(w: Window): int { w.end - w.start }

  // ---- The amount owed ----

  // Rent of n cycles that are charged for the given time together.
  function RentOver(l: Lease, n: nat, time: int): int {
    if l.rentPerSecond > 0 then l.rentPerSecond * time else n * l.rentAmount
  }

  lemma RentDistributes(l: Lease, n: nat, first: int, rest: int)
    ensures RentFor(l, first) + RentOver(l, n, rest) == RentOver(l, n + 1, first + rest)
  {
  }

  /** Over any run the amount owed grows by the rent of all the time charged. */
  lemma {:induction false} OwedOverRun(b: Billing, calls: seq<Call>, id: U64)
    requires id in b.leases && NotReregistered(calls, id)
    ensures var l, cs := b.leases[id], Charges(b, calls, id);
            && id in Run(b, calls).leases
            && Run(b, calls).leases[id].totalOwed - l.totalOwed == RentOver(l, |cs|, SumBy(cs, Length))
    decreases |calls|
  {
    if calls == [] {
    } else {
      var l, c, b' := b.leases[id], calls[0], Apply(b, calls[0]);
      TailNotReregistered(calls, id);
      StepOnLease(b, c, id);
      OwedOverRun(b', calls[1..], id);
      var rest := Charges(b', calls[1..], id);
      if Bills(b, c, id) {
        var cs := [ChargeOf(l, c.now)] + rest;
        assert cs[1..] == rest;
        RentDistributes(l, |rest|, Duration(l, c.now), SumBy(rest, Length));
      } else {
        assert Charges(b, calls, id) == rest;
      }
    }
  }

  // ---- Time charged once and twice ----

  predicate Covers(w: Window, x: int) { w.start <= x < w.end }

  function Span(w: Window): set<int> { set x: int | w.start <= x < w.end && Covers(w, x) }

  // The seconds that some element covers.
  function Seconds(cs: seq<Window>): set<int> {
    if cs == [] then {} else Span(cs[0]) + Seconds(cs[1..])
  }

  // The time by which elements run into their successors.
  function Overlap(cs: seq<Window>): int {
    if |cs| < 2 then 0 else Max(0, cs[0].end - cs[1].start) + Overlap(cs[1..])
  }

  // Neither starts nor ends go back.
  predicate Forward(cs: seq<Window>) {
    && (forall i | 0 <= i < |cs| :: cs[i].start <= cs[i].end)
    && (forall i, j | 0 <= i < j < |cs| :: cs[i].start <= cs[j].start && cs[i].end <= cs[j].end)
  }

  lemma {:induction false} SpanSize(w: Window)
    requires w.start <= w.end
    ensures |Span(w)| == w.end - w.start
    decreases w.end - w.start
  {
    if w.start == w.end {
      assert Span(w) == {};
    } else {
      var shorter := Window(w.start, w.end - 1);
      SpanSize(shorter);
      assert Span(w) == Span(shorter) + {w.end - 1};
    }
  }

  lemma {:induction false} SecondsExact(cs: seq<Window>, x: int)
    ensures x in Seconds(cs) <==> exists i :: 0 <= i < |cs| && Covers(cs[i], x)
  {
    if cs == [] {
    } else {
      SecondsExact(cs[1..], x);
      assert forall i | 0 < i < |cs| :: cs[i] == cs[1..][i - 1];
      if x in Seconds(cs[1..]) {
        var i :| 0 <= i < |cs[1..]| && cs[1..][i].start <= x < cs[1..][i].end;
        assert cs[i + 1].start <= x < cs[i + 1].end;
      }
    }
  }

  // What the first element shares with the others, it shares with the second.
  lemma SharedWithNext(cs: seq<Window>)
    requires Forward(cs) && |cs| >= 2
    ensures Span(cs[0]) * Seconds(cs[1..]) == Span(Window(cs[1].start, Max(cs[0].end, cs[1].start)))
  {
    var rest := cs[1..];
    assert forall i | 0 <= i < |rest| :: rest[i] == cs[i + 1];
    forall x ensures x in Span(cs[0]) * Seconds(rest) <==> cs[1].start <= x < Max(cs[0].end, cs[1].start) {
      SecondsExact(rest, x);
      if x in Span(cs[0]) * Seconds(rest) {
        var i :| 0 <= i < |rest| && rest[i].start <= x < rest[i].end;
        assert cs[1].start <= cs[i + 1].start;
      }
      if cs[1].start <= x < cs[0].end {
        assert rest[0].start <= x < rest[0].end;
      }
    }
  }

  /** The total length is the number of seconds covered, plus the overlaps of neighbours. */
  lemma {:induction false} LengthExact(cs: seq<Window>)
    requires Forward(cs)
    ensures SumBy(cs, Length) == |Seconds(cs)| + Overlap(cs)
  {
    if cs == [] {
    } else {
      var rest := cs[1..];
      assert Forward(rest);
      LengthExact(rest);
      SpanSize(cs[0]);
      if rest == [] {
        assert Seconds(cs) == Span(cs[0]);
      } else {
        SharedWithNext(cs);
        SpanSize(Window(cs[1].start, Max(cs[0].end, cs[1].start)));
        assert |Span(cs[0]) + Seconds(rest)| == |Span(cs[0])| + |Seconds(rest)| - |Span(cs[0]) * Seconds(rest)|;
      }
    }
  }

  predicate Disjoint(cs: seq<Window>) { forall i | 0 <= i < |cs| - 1 :: cs[i].end <= cs[i + 1].start }

  lemma {:induction false} OverlapExact(cs: seq<Window>)
    ensures Overlap(cs) >= 0 && (Overlap(cs) == 0 <==> Disjoint(cs))
  {
    if |cs| < 2 {
    } else {
      OverlapExact(cs[1..]);
      assert forall i | 0 < i < |cs| :: cs[i] == cs[1..][i - 1];
      if Disjoint(cs) {
        assert cs[0].end <= cs[0 + 1].start;
        forall i | 0 <= i < |cs[1..]| - 1 ensures cs[1..][i].end <= cs[1..][i + 1].start {
          assert cs[i + 1].end <= cs[i + 1 + 1].start;
        }
      }
      if Overlap(cs) == 0 {
        forall i | 0 <= i < |cs| - 1 ensures cs[i].end <= cs[i + 1].start {
          if i > 0 { assert cs[1..][i - 1].end <= cs[1..][i - 1 + 1].start; }
        }
      }
    }
  }

  // ---- Charges against windows ----

  predicate ClockForward(calls: seq<Call>) { forall i, j | 0 <= i < j < |calls| :: calls[i].now <= calls[j].now }

  // Each charge begins with its window, and ends no earlier than it begins or the one before it ends.
  predicate Matches(cs: seq<Window>, ws: seq<Window>, floor: int) {
    && |cs| == |ws|
    && (cs != [] ==>
          && cs[0].start == ws[0].start && cs[0].start <= cs[0].end && floor <= cs[0].end
          && Matches(cs[1..], ws[1..], cs[0].end))
  }

  lemma {:induction false} MatchesLower(cs: seq<Window>, ws: seq<Window>, floor: int, floor': int)
    requires Matches(cs, ws, floor) && floor' <= floor
    ensures Matches(cs, ws, floor')
  {
  }

  // The same, charge by charge.
  lemma {:induction false} MatchesAll(cs: seq<Window>, ws: seq<Window>, floor: int)
    requires Matches(cs, ws, floor)
    ensures |cs| == |ws|
    ensures forall i | 0 <= i < |cs| :: cs[i].start == ws[i].start && cs[i].start <= cs[i].end && floor <= cs[i].end
    ensures forall i, j | 0 <= i < j < |cs| :: cs[i].end <= cs[j].end
  {
    if cs == [] {
    } else {
      MatchesAll(cs[1..], ws[1..], cs[0].end);
      assert forall i | 0 < i < |cs| :: cs[i] == cs[1..][i - 1] && ws[i] == ws[1..][i - 1];
    }
  }

  lemma TailClock(calls: seq<Call>)
    requires calls != [] && ClockForward(calls)
    ensures ClockForward(calls[1..]) && (calls[1..] != [] ==> calls[0].now <= calls[1..][0].now)
  {
    assert forall i | 0 <= i < |calls| - 1 :: calls[1..][i] == calls[i + 1];
  }

  lemma MatchesCons(cs: seq<Window>, ws: seq<Window>, floor: int, c: Window, w: Window)
    requires Matches(cs, ws, c.end) && c.start == w.start && c.start <= c.end && floor <= c.end
    ensures Matches([c] + cs, [w] + ws, floor)
  {
    assert ([c] + cs)[1..] == cs && ([w] + ws)[1..] == ws;
  }

  lemma {:induction false} ChargesMatch(b: Billing, calls: seq<Call>, id: U64, floor: int)
    requires id in b.leases && NotReregistered(calls, id) && ClockForward(calls)
    requires calls != [] ==> floor <= Min(calls[0].now, b.leases[id].endTime)
    ensures Matches(Charges(b, calls, id), Windows(b, calls, id), floor)
    decreases |calls|
  {
    if calls == [] {
    } else {
      var l, c, b' := b.leases[id], calls[0], Apply(b, calls[0]);
      var until := Min(c.now, l.endTime);
      FirstCall(b, calls, id);
      TailClock(calls);
      ChargesMatch(b', calls[1..], id, until);
      var cs, ws := Charges(b', calls[1..], id), Windows(b', calls[1..], id);
      if Bills(b, c, id) {
        MatchesCons(cs, ws, floor, ChargeOf(l, c.now), WindowOf(b, c, id));
      } else {
        MatchesLower(cs, ws, until, floor);
      }
    }
  }

  // Every cycle but the last was processed, or the lease had ended, by the end of its window.
  predicate NoneLate(cs: seq<Window>, ws: seq<Window>)
    requires |cs| == |ws|
  {
    forall i | 0 <= i < |cs| - 1 :: cs[i].end <= ws[i].end
  }

  lemma TileAt(ws: seq<Window>, due: int, f: nat, end: int, i: nat, j: nat)
    requires Tiles(ws, due, f, end) && i < j < |ws|
    ensures ws[i].start <= ws[i].end <= ws[j].start <= ws[j].end
    ensures j == i + 1 ==> ws[i].end == ws[j].start
  {
    Multiples(i, j, f);
    assert ws[i] == Window(due + i * f, due + (i + 1) * f) && ws[j] == Window(due + j * f, due + (j + 1) * f);
  }

  lemma Multiples(i: nat, j: nat, f: nat)
    requires i < j
    ensures i * f <= (i + 1) * f <= j * f <= (j + 1) * f
  {
  }

  lemma TilesForward(ws: seq<Window>, due: int, f: nat, end: int)
    requires Tiles(ws, due, f, end)
    ensures forall i, j | 0 <= i < j < |ws| :: ws[i].end <= ws[j].start
    ensures forall i | 0 <= i < |ws| - 1 :: ws[i].end == ws[i + 1].start
    ensures Forward(ws)
  {
    forall i, j | 0 <= i < j < |ws|
      ensures ws[i].start <= ws[i].end <= ws[j].start <= ws[j].end && (j == i + 1 ==> ws[i].end == ws[j].start)
    {
      TileAt(ws, due, f, end, i, j);
    }
    assert |ws| > 0 ==> ws[0] == Window(due + 0 * f, due + (0 + 1) * f);
  }

  // Charges that begin with their windows, in order, each window after the one before.
  predicate Aligned(cs: seq<Window>, ws: seq<Window>) {
    && |cs| == |ws|
    && (forall i | 0 <= i < |cs| :: cs[i].start == ws[i].start && cs[i].start <= cs[i].end)
    && (forall i, j | 0 <= i < j < |cs| :: cs[i].end <= cs[j].end)
    && (forall i, j | 0 <= i < j < |ws| :: ws[i].end <= ws[j].start)
  }

  // No charge covers the second at which a shorter charge than its window ends.
  lemma EarlyEndUncovered(cs: seq<Window>, ws: seq<Window>, i: nat)
    requires Aligned(cs, ws) && i < |cs| && cs[i].end < ws[i].end
    ensures cs[i].end !in Seconds(cs) && cs[i].end in Seconds(ws)
  {
    SecondsExact(cs, cs[i].end);
    SecondsExact(ws, cs[i].end);
    assert Covers(ws[i], cs[i].end);
    forall j | 0 <= j < |cs| ensures !Covers(cs[j], cs[i].end) {
      if i < j { assert ws[i].end <= ws[j].start; }
    }
  }

  // No window covers the second at which the last one ends.
  lemma LateEndUncovered(cs: seq<Window>, ws: seq<Window>, i: nat)
    requires Aligned(cs, ws) && i == |cs| - 1 && ws[i].end < cs[i].end && cs[i].start <= ws[i].end
    ensures ws[i].end in Seconds(cs) && ws[i].end !in Seconds(ws)
  {
    SecondsExact(cs, ws[i].end);
    SecondsExact(ws, ws[i].end);
    assert Covers(cs[i], ws[i].end);
    forall j | 0 <= j < |ws| ensures !Covers(ws[j], ws[i].end) {
      if j < i { assert ws[j].end <= ws[i].start; }
    }
  }

  // Charges that cover the windows' seconds and no others, none twice, are the windows.
  lemma FairChargesAreWindows(cs: seq<Window>, ws: seq<Window>)
    requires Aligned(cs, ws) && Forward(ws) && NoneLate(cs, ws) && Seconds(cs) == Seconds(ws)
    ensures cs == ws
  {
    forall i | 0 <= i < |cs| ensures cs[i].end == ws[i].end {
      if cs[i].end < ws[i].end {
        EarlyEndUncovered(cs, ws, i);
      } else if ws[i].end < cs[i].end {
        assert i == |cs| - 1;
        LateEndUncovered(cs, ws, i);
      }
    }
  }

  /**
   What a lease with a per-second rent is charged over any run of a clock that does not go back:
   the rent of every second covered, once more for each second by which a cycle is processed past
   the end of its window into the next; so each second covered is charged once exactly when none but
   the last cycle is late, and the seconds charged are moreover those of the billed windows exactly
   when every cycle is processed, or the lease has ended, at the very end of its window.
   */
  lemma ChargedOverRun(b: Billing, calls: seq<Call>, id: U64)
    requires id in b.leases && Distinguished(b.leases[id]) && b.leases[id].rentPerSecond > 0
    requires NotReregistered(calls, id) && ClockForward(calls)
    ensures id in Run(b, calls).leases && |Charges(b, calls, id)| == |Windows(b, calls, id)|
    ensures var rate, cs, ws := b.leases[id].rentPerSecond, Charges(b, calls, id), Windows(b, calls, id);
            var growth := Run(b, calls).leases[id].totalOwed - b.leases[id].totalOwed;
            && growth == rate * (|Seconds(cs)| + Overlap(cs))
            && (growth == rate * |Seconds(cs)| <==> NoneLate(cs, ws))
            && (growth == rate * |Seconds(cs)| && Seconds(cs) == Seconds(ws) <==> cs == ws)
  {
    var l, cs, ws := b.leases[id], Charges(b, calls, id), Windows(b, calls, id);
    var floor := if calls == [] then 0 else Min(calls[0].now, l.endTime);
    OwedOverRun(b, calls, id);
    WindowsTile(b, calls, id);
    ChargesMatch(b, calls, id, floor);
    MatchesAll(cs, ws, floor);
    TilesForward(ws, NextDue(l), l.frequency, l.endTime);
    OnceExactly(cs, ws, NextDue(l), l.frequency, l.endTime, floor);
    SameMultiple(l.rentPerSecond, |Seconds(cs)| + Overlap(cs), |Seconds(cs)|);
  }

  lemma SameMultiple(rate: int, x: int, y: int)
    requires rate > 0
    ensures rate * x == rate * y <==> x == y
  {
    assert rate * x - rate * y == rate * (x - y);
  }

  lemma OnceExactly(cs: seq<Window>, ws: seq<Window>, due: int, f: nat, end: int, floor: int)
    requires Tiles(ws, due, f, end) && Matches(cs, ws, floor)
    ensures SumBy(cs, Length) == |Seconds(cs)| + Overlap(cs)
    ensures Overlap(cs) == 0 <==> NoneLate(cs, ws)
    ensures Overlap(cs) == 0 && Seconds(cs) == Seconds(ws) <==> cs == ws
  {
    TilesForward(ws, due, f, end);
    MatchesAll(cs, ws, floor);
    assert Forward(cs) by {
      assert forall i, j | 0 <= i < j < |cs| :: cs[i].start <= ws[i].end <= ws[j].start;
    }
    LengthExact(cs);
    OverlapExact(cs);
    assert Disjoint(cs) <==> NoneLate(cs, ws) by {
      assert forall i | 0 <= i < |cs| - 1 :: cs[i + 1].start == ws[i].end;
    }
    if NoneLate(cs, ws) && Seconds(cs) == Seconds(ws) {
      FairChargesAreWindows(cs, ws);
    }
  }

  // ---- An input on which a cycle is late ----

  // The lease, before any cycle and after one or two.
  function LateLease(lastCycle: U64, owed: I128): Lease { Lease(2, 0, 1, 10, 100, 10, lastCycle, true, true, owed) }

  function LateState(last: U64, owed: I128, cycles: map<nat, Cycle>, n: U64): Billing {
    Billing(1, map[7 := LateLease(last, owed)], cycles, true, false, n, true, false)
  }

  const LATE_CALL: Call := Call(25, ProcessOp(7, 3))

  lemma LateSteps()
    ensures Register(Initialized(1), 7, 2, 0, 1, 10, 100, 10) == Ok(LateState(0, 0, map[], 0))
    ensures Step(LateState(0, 0, map[], 0), LATE_CALL) ==
            Ok(LateState(10, 15, map[3 := Cycle(7, 15, 10, 20, 15)], 1))
    ensures Step(LateState(10, 15, map[3 := Cycle(7, 15, 10, 20, 15)], 1), LATE_CALL) ==
            Ok(LateState(20, 20, map[3 := Cycle(7, 5, 20, 30, 5)], 2))
  {
    assert map[7 := LateLease(0, 0)][7 := LateLease(10, 15)] == map[7 := LateLease(10, 15)];
    assert map[7 := LateLease(10, 15)][7 := LateLease(20, 20)] == map[7 := LateLease(20, 20)];
    assert map[3 := Cycle(7, 15, 10, 20, 15)][3 := Cycle(7, 5, 20, 30, 5)] == map[3 := Cycle(7, 5, 20, 30, 5)];
  }

  lemma OneCycle(b: Billing, c: Call, id: U64)
    requires Bills(b, c, id)
    ensures id in b.leases && NotReregistered([c], id) && Run(b, [c]) == Apply(b, c)
    ensures Windows(b, [c], id) == [WindowOf(b, c, id)]
    ensures Charges(b, [c], id) == [ChargeOf(b.leases[id], c.now)]
  {
    FirstCall(b, [c], id);
    assert [c][1..] == [];
  }

  // Two calls, in terms of the steps.
  lemma TwoCycles(b: Billing, c: Call, id: U64)
    requires Bills(b, c, id) && Bills(Apply(b, c), c, id)
    ensures id in b.leases && id in Apply(b, c).leases && NotReregistered([c, c], id)
    ensures Run(b, [c, c]) == Apply(Apply(b, c), c)
    ensures Windows(b, [c, c], id) == [WindowOf(b, c, id), WindowOf(Apply(b, c), c, id)]
    ensures Charges(b, [c, c], id) ==
            [ChargeOf(b.leases[id], c.now), ChargeOf(Apply(b, c).leases[id], c.now)]
  {
    FirstCall(b, [c, c], id);
    assert [c, c][1..] == [c];
    OneCycle(Apply(b, c), c, id);
  }

  /**
   A lease of period 10 at rate 1 from time 10 on, and two cycles processed at time 25 in one ledger:
   the first is charged five seconds into the second window, which the second charges again, so 20 is
   owed for 15 seconds; and one record is left of the two cycles.
   */
  lemma LateCycles()
    ensures Register(Initialized(1), 7, 2, 0, 1, 10, 100, 10).Ok?
    ensures var b := Register(Initialized(1), 7, 2, 0, 1, 10, 100, 10).value;
            var calls := [Call(25, ProcessOp(7, 3)), Call(25, ProcessOp(7, 3))];
            && 7 in b.leases && NotReregistered(calls, 7) && ClockForward(calls)
            && Windows(b, calls, 7) == [Window(10, 20), Window(20, 30)]
            && Charges(b, calls, 7) == [Window(10, 25), Window(20, 25)]
            && !NoneLate(Charges(b, calls, 7), Windows(b, calls, 7))
            && |Seconds(Charges(b, calls, 7))| == 15
            && 7 in Run(b, calls).leases && Run(b, calls).leases[7].totalOwed == 20
            && Run(b, calls).cycles == map[3 := Cycle(7, 5, 20, 30, 5)]
  {
    LateSteps();
    TwoCycles(LateState(0, 0, map[], 0), LATE_CALL, 7);
    LateSeconds([Window(10, 25), Window(20, 25)]);
  }

  lemma LateSeconds(cs: seq<Window>)
    requires cs == [Window(10, 25), Window(20, 25)]
    ensures |Seconds(cs)| == 15
  {
    assert cs[1..] == [Window(20, 25)] && cs[1..][1..] == [];
    LengthExact(cs);
    assert SumBy(cs, Length) == 15 + SumBy(cs[1..], Length) == 20 + SumBy(cs[1..][1..], Length);
    assert Overlap(cs) == 5 + Overlap(cs[1..]);
  }
}
