/** How far the oracle price stored with a lease can drift under the volatility circuit breaker. */
module OraclePricing {
  import opened Arith
  import opened LeaseLifecycle
  import opened LeaseLifecycleBooks
  import opened LeaseLifecycleCalls

  function Pow(b: int, n: nat): int { if n == 0 then 1 else b * Pow(b, n - 1) }

  lemma {:induction false} PowNonNegative(b: int, n: nat)
    requires b >= 0
    ensures Pow(b, n) >= 0
    ensures b > 0 ==> Pow(b, n) > 0
  {
    if n == 0 {
    } else {
      PowNonNegative(b, n - 1);
    }
  }

  // ---- One payment ----

  // The call is an accepted fiat-pegged payment on this lease.
  predicate Pays(d: Data, c: Call, id: nat) { c.op.PayFiat? && c.op.id == id && Step(d, c).Ok? }

  /** The truncated change test bounds the new price by the old one on both sides, strictly. */
  lemma BreakerBounds(lease: Lease, peg: FiatPeg, now: U64, feed: Option<PriceData>)
    requires RecentPrice(lease, now) && GetOraclePrice(lease, peg, now, feed).Ok?
    ensures feed.Some?
    ensures feed.value.price * 10000 < lease.lastPrice.value * (10001 + peg.volatility)
    ensures feed.value.price * 10000 > lease.lastPrice.value * (9999 - peg.volatility)
  {
    var last: int, limit: int := lease.lastPrice.value, peg.volatility;
    var change := Distance(feed.value.price, last);
    QuotientBelow(change * 10000, last, limit + 1);
    assert change * 10000 < last * (limit + 1);
    assert last * (10001 + limit) == last * 10000 + last * (limit + 1);
    assert last * (9999 - limit) == last * 10000 - last * (limit + 1);
  }

  lemma PaymentAccepted(d: Data, c: Call, id: nat)
    requires Pays(d, c, id)
    ensures id in d.leases && d.leases[id].peg.Some? && d.leases[id].peg.value.enabled && c.op.feed.Some?
    ensures GetOraclePrice(d.leases[id], d.leases[id].peg.value, c.now, c.op.feed) == Ok(c.op.feed.value)
    ensures FiatPeggedRent(d.leases[id], c.now, c.op.feed).Ok?
    ensures id in Apply(d, c).leases
    ensures var l, l' := d.leases[id], Apply(d, c).leases[id];
            && l'.lastPrice == Some(c.op.feed.value.price) && l'.lastPriceTime == Some(c.op.feed.value.timestamp)
            && l'.peg == l.peg
  {
  }

  /**
   A payment that is accepted used a positive price exactly when the quotient did not fall below the
   64-bit range: the conversion to 64 bits wraps there, and a wrapped quotient can look positive.
   */
  lemma AcceptedPriceSign(d: Data, c: Call, id: nat)
    requires Inv(d) && Pays(d, c, id)
    ensures id in d.leases && c.op.feed.Some? && c.op.feed.value.price != 0 && d.leases[id].peg.Some?
    ensures var p := c.op.feed.value;
            p.price > 0 <==>
            TruncDiv(d.leases[id].peg.value.targetUsd * Pow10(p.decimals), p.price) >= -0x8000_0000_0000_0000
  {
    PaymentAccepted(d, c, id);
    assert LeaseOk(d.leases[id]);
    RentSign(d.leases[id], c.now, c.op.feed);
  }

  lemma RentSign(lease: Lease, now: U64, feed: Option<PriceData>)
    requires lease.peg.Some? && lease.peg.value.enabled && lease.peg.value.targetUsd > 0
    requires FiatPeggedRent(lease, now, feed).Ok?
    ensures feed.Some? && feed.value.price != 0
    ensures feed.value.price > 0 <==>
            TruncDiv(lease.peg.value.targetUsd * Pow10(feed.value.decimals), feed.value.price) >= -0x8000_0000_0000_0000
  {
    RentQuotient(lease, now, feed);
    Pow10Positive(feed.value.decimals);
    ProductPositive(lease.peg.value.targetUsd, Pow10(feed.value.decimals));
    AcceptedQuotient(lease.peg.value.targetUsd * Pow10(feed.value.decimals), feed.value.price);
  }

  // What the conversion to 64 bits accepts.
  predicate Converts(quotient: int) { quotient < 0x8000_0000_0000_0000 && WrapI64(quotient) > 0 }

  lemma RentQuotient(lease: Lease, now: U64, feed: Option<PriceData>)
    requires lease.peg.Some? && lease.peg.value.enabled && FiatPeggedRent(lease, now, feed).Ok?
    ensures feed.Some? && feed.value.price != 0
    ensures Converts(TruncDiv(lease.peg.value.targetUsd * Pow10(feed.value.decimals), feed.value.price))
  {
  }

  lemma ProductPositive(a: int, b: int)
    requires a > 0 && b > 0
    ensures a * b > 0
  {
  }

  // An accepted quotient is positive, or lies below the 64-bit range.
  lemma AcceptedQuotient(usd: int, price: int)
    requires usd > 0 && price != 0 && Converts(TruncDiv(usd, price))
    ensures price > 0 <==> TruncDiv(usd, price) >= -0x8000_0000_0000_0000
  {
    QuotientSign(usd, price);
  }

  lemma QuotientSign(a: int, b: int)
    requires a > 0 && b != 0
    ensures b > 0 ==> a / b >= 0
    ensures b < 0 ==> a / b <= 0
  {
    if b < 0 {
      var q := a / b;
      assert a == b * q + a % b;
      assert q > 0 ==> b * q <= b;
    }
  }

  // A lease as created and activated at once.
  lemma CreatedAndActivated(now: U64, t: Terms)
    requires t.rent > 0 && t.deposit > 0 && now <= t.startDate < t.endDate && t.peg.Some?
    requires t.peg.value.targetUsd > 0 && t.peg.value.staleness > 0 && t.peg.value.volatility > 0
    ensures var d := Run(INITIAL, [Call(now, Create(t, None)), Call(now, Activate(1, t.lessee))]);
            && 1 in d.leases && d.leases[1].state == Active && d.leases[1].peg == t.peg
            && d.leases[1].totalPaid == 0 && d.leases[1].lastPrice == None
  {
    var calls := [Call(now, Create(t, None)), Call(now, Activate(1, t.lessee))];
    var created := Apply(INITIAL, calls[0]);
    assert Run(created, calls[1..]) == Run(Apply(created, calls[1]), calls[1..][1..]);
  }

  // Its first payment, at any price whose quotient converts.
  lemma FirstPayment(d: Data, now: U64, id: nat, p: PriceData)
    requires id in d.leases && d.leases[id].state == Active && d.leases[id].totalPaid == 0
    requires d.leases[id].lastPrice == None && d.leases[id].peg.Some? && d.leases[id].peg.value.enabled
    requires SatSub(now, p.timestamp) <= Min(3600, d.leases[id].peg.value.staleness) && p.price != 0
    requires var usd := d.leases[id].peg.value.targetUsd * Pow10(p.decimals);
             FitsI128(Pow10(p.decimals)) && FitsI128(usd) && Converts(TruncDiv(usd, p.price))
    ensures var c := Call(now, PayFiat(id, Some(p)));
            var usd := d.leases[id].peg.value.targetUsd * Pow10(p.decimals);
            && Pays(d, c, id) && id in Apply(d, c).leases
            && Apply(d, c).leases[id].lastPrice == Some(p.price)
            && Apply(d, c).leases[id].totalPaid == WrapI64(TruncDiv(usd, p.price))
  {
  }

  // A price of -1 is accepted on such a lease, and billed as 6 units: the quotient wraps.
  lemma NegativePriceAccepted()
    ensures var terms := Terms(1, 2, 100, 50, 10, 20, 5, 100, Some(FiatPeg(true, 1844674407370955161, 900, 2000)));
            var d := Run(INITIAL, [Call(10, Create(terms, None)), Call(10, Activate(1, 2))]);
            var payment := Call(10, PayFiat(1, Some(PriceData(-1, 10, 1))));
            && Pays(d, payment, 1)
            && 1 in Apply(d, payment).leases && Apply(d, payment).leases[1].lastPrice == Some(-1)
            && Apply(d, payment).leases[1].totalPaid == 6
  {
    var terms := Terms(1, 2, 100, 50, 10, 20, 5, 100, Some(FiatPeg(true, 1844674407370955161, 900, 2000)));
    CreatedAndActivated(10, terms);
    var d := Run(INITIAL, [Call(10, Create(terms, None)), Call(10, Activate(1, 2))]);
    assert Pow10(1) == 10 * Pow10(0) == 10;
    WrappedQuotient(18446744073709551610);
    FirstPayment(d, 10, 1, PriceData(-1, 10, 1));
  }

  lemma WrappedQuotient(usd: int)
    requires usd == 0x1_0000_0000_0000_0000 - 6
    ensures Converts(TruncDiv(usd, -1)) && WrapI64(TruncDiv(usd, -1)) == 6
  {
  }

  // ---- Whole runs ----

  // How many payments on the lease the run accepts.
  function Payments(d: Data, calls: seq<Call>, id: nat): nat
    decreases |calls|
  {
    if calls == [] then 0
    else (if Pays(d, calls[0], id) then 1 else 0) + Payments(Apply(d, calls[0]), calls[1..], id)
  }

  // Every accepted payment quotes a positive price within an hour of the stored one.
  predicate PromptPositive(d: Data, calls: seq<Call>, id: nat)
    requires id in d.leases
    decreases |calls|
  {
    calls != [] ==>
      var d' := Apply(d, calls[0]);
      && (Pays(d, calls[0], id) ==>
            && calls[0].op.feed.Some? && calls[0].op.feed.value.price > 0
            && d.leases[id].lastPriceTime.Some?
            && SatSub(calls[0].now, d.leases[id].lastPriceTime.value) <= 3600)
      && id in d'.leases && PromptPositive(d', calls[1..], id)
  }

  lemma PriceOnlyChangesByPayment(d: Data, c: Call, id: nat)
    requires Inv(d) && id in d.leases && !Pays(d, c, id)
    ensures id in Apply(d, c).leases
    ensures Apply(d, c).leases[id].lastPrice == d.leases[id].lastPrice
    ensures Apply(d, c).leases[id].lastPriceTime == d.leases[id].lastPriceTime
  {
    match c.op
    case CheckGrace(i) => ExpiryPrice(d, c.now, i, id);
    case TriggerCheck(i, caller) => ExpiryPrice(d, c.now, i, id);
    case Deduct(i) => DirectDeductionFails(d, c.now, i);
    case _ =>
  }

  lemma ExpiryPrice(d: Data, now: U64, i: nat, id: nat)
    requires Inv(d) && id in d.leases
    ensures var r := CheckGracePeriodExpiry(d, now, i);
            r.Ok? ==>
              && id in r.value.leases
              && r.value.leases[id].lastPrice == d.leases[id].lastPrice
              && r.value.leases[id].lastPriceTime == d.leases[id].lastPriceTime
  {
    if i in d.leases && d.leases[i].state == GracePeriod {
      assert LeaseOk(d.leases[i]);
      if Overdue(d.leases[i], now) { EvictionExact(d, now, i); }
    }
  }

  predicate Quoted(l: Lease) {
    l.lastPrice.Some? && l.lastPriceTime.Some? && l.lastPrice.value > 0 && l.peg.Some?
  }

  // n truncated changes of at most limit basis points each lead from p0 to pn.
  predicate Drift(p0: int, pn: int, limit: nat, n: nat) {
    && (n == 0 ==> pn == p0)
    && (n > 0 ==> pn * Pow(10000, n) < p0 * Pow(10001 + limit, n))
    && (n > 0 && limit <= 9999 ==> pn * Pow(10000, n) > p0 * Pow(9999 - limit, n))
  }

  lemma DriftStep(p0: int, p1: int, pn: int, limit: nat, n: nat)
    requires p1 * 10000 < p0 * (10001 + limit) && p1 * 10000 > p0 * (9999 - limit)
    requires Drift(p1, pn, limit, n)
    ensures Drift(p0, pn, limit, n + 1)
  {
    Compound(p0, p1, pn, 10001 + limit, n);
    if limit <= 9999 {
      CompoundBelow(p0, p1, pn, 9999 - limit, n);
    }
  }

  /**
   Compounded drift: over any run in which n payments on the lease are accepted, each prompt and
   positively priced, the stored price stays within the n-th powers of the breaker's two bounds.
   */
  lemma {:induction false} PriceDrift(d: Data, calls: seq<Call>, id: nat)
    requires Inv(d) && id in d.leases && Quoted(d.leases[id]) && PromptPositive(d, calls, id)
    ensures id in Run(d, calls).leases && Quoted(Run(d, calls).leases[id])
    ensures Drift(d.leases[id].lastPrice.value, Run(d, calls).leases[id].lastPrice.value,
                  d.leases[id].peg.value.volatility, Payments(d, calls, id))
    decreases |calls|
  {
    if calls == [] {
    } else {
      var c := calls[0];
      var d1 := Apply(d, c);
      StepKeepsInv(d, c);
      if !Pays(d, c, id) {
        StepOnLease(d, c, id);
        PriceOnlyChangesByPayment(d, c, id);
        PriceDrift(d1, calls[1..], id);
      } else {
        var l := d.leases[id];
        PaymentAccepted(d, c, id);
        BreakerBounds(l, l.peg.value, c.now, c.op.feed);
        PriceDrift(d1, calls[1..], id);
        DriftStep(l.lastPrice.value, d1.leases[id].lastPrice.value,
                  Run(d1, calls[1..]).leases[id].lastPrice.value, l.peg.value.volatility,
                  Payments(d1, calls[1..], id));
      }
    }
  }

  lemma Compound(p0: int, p1: int, pn: int, k: int, n: nat)
    requires p1 * 10000 < p0 * k && k > 0
    requires if n == 0 then pn == p1 else pn * Pow(10000, n) < p1 * Pow(k, n)
    ensures pn * Pow(10000, n + 1) < p0 * Pow(k, n + 1)
  {
    PowNonNegative(k, n);
    calc {
      pn * Pow(10000, n + 1);
      (pn * Pow(10000, n)) * 10000;
    <= (p1 * Pow(k, n)) * 10000;
      (p1 * 10000) * Pow(k, n);
    < { MulStrict(p1 * 10000, p0 * k, Pow(k, n)); }
      (p0 * k) * Pow(k, n);
      { MulAssoc(p0, k, Pow(k, n)); }
      p0 * Pow(k, n + 1);
    }
  }

  lemma CompoundBelow(p0: int, p1: int, pn: int, k: int, n: nat)
    requires p1 * 10000 > p0 * k && k >= 0
    requires if n == 0 then pn == p1 else pn * Pow(10000, n) > p1 * Pow(k, n)
    ensures pn * Pow(10000, n + 1) > p0 * Pow(k, n + 1)
  {
    PowNonNegative(k, n);
    calc {
      p0 * Pow(k, n + 1);
      { MulAssoc(p0, k, Pow(k, n)); }
      (p0 * k) * Pow(k, n);
    <= { MulMonotone(p0 * k, p1 * 10000, Pow(k, n)); }
      (p1 * 10000) * Pow(k, n);
      (p1 * Pow(k, n)) * 10000;
    }
    if n == 0 {
      assert Pow(k, 0) == 1 && Pow(10000, 1) == 10000;
    } else {
      assert (p1 * Pow(k, n)) * 10000 < (pn * Pow(10000, n)) * 10000;
    }
  }

  lemma MulAssoc(a: int, b: int, c: int)
    ensures a * b * c == a * (b * c)
  {}

  lemma MulStrict(a: int, b: int, c: int)
    requires a < b && c > 0
    ensures a * c < b * c
  {}

  lemma MulMonotone(a: int, b: int, c: int)
    requires a <= b && c >= 0
    ensures a * c <= b * c
  {}
}
