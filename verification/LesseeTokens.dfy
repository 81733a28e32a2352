/**
 Lessee access tokens (contracts/leaseflow_contracts/src/lessee_access_token.rs): every operation
 rewrites the token, its lease mapping and the lessee lists through one storing routine, which
 pushes onto the list each time.
 */
module LesseeTokens {
  import opened Arith
  import opened LeaseInstances

  // Asset identifiers are only ever compared for equality.
  type AssetId = nat

  datatype AccessLevel = Full | Limited | TimeBased | Conditional

  // What the caller of a mint chooses.
  datatype Grant = Grant(asset: AssetId, accessLevel: AccessLevel, transferable: bool)

  datatype Reason = LeaseTerminated | LeaseExpired | LeaseDisputed | OtherReason

  datatype Token = Token(
    leaseId: U64, lessee: Address, grant: Grant, expiration: U64, mintedAt: U64, lastVerified: U64,
    verifications: U32, transferCount: U32, revoked: bool, revokedAt: Option<U64>, reason: Option<Reason>)

  datatype Store = Store(
    tokens: map<nat, Token>, leaseToToken: map<U64, nat>, lessees: Lists, assets: Lists)

  datatype Response = Response(
    tokenId: nat, isValid: bool, lessee: Address, asset: AssetId, expiration: U64, accessLevel: AccessLevel,
    verifiedAt: U64, remaining: U64, transferable: bool)

  datatype Error =
    | LeaseNotFound | TokenNotFound | TokenAlreadyExists | InvalidLeaseState | UnauthorizedTransfer
    | TokenRevoked | TokenExpired | TransferNotAllowed
    | HostAbort // an unchecked operation overflowed

  const EMPTY: Store := Store(map[], map[], map[], map[])

  // ---- Operations ----

  // store_access_token: the time to live is unsigned, so a token already expired aborts the call.
  function StoreToken(s: Store, now: U64, id: nat, t: Token): Result<Store, Error> {
    if t.expiration < now then Err(HostAbort)
    else Ok(Store(s.tokens[id := t], s.leaseToToken[t.leaseId := id], Push(s.lessees, t.lessee, id),
                  Push(s.assets, t.grant.asset, id)))
  }

  // mint_lessee_access_token
  function Mint(s: Store, now: U64, leaseId: U64, g: Grant, lease: Option<LeaseInstance>): Result<Store, Error> {
    if lease.None? then Err(LeaseNotFound)
    else if lease.value.status != Active || lease.value.depositStatus != Held then Err(InvalidLeaseState)
    else if leaseId in s.leaseToToken then Err(TokenAlreadyExists)
    else
      StoreToken(s, now, TokenId(leaseId, now),
                 Token(leaseId, lease.value.tenant, g, lease.value.endDate, now, now, 0, 0, false, None, None))
  }

  // transfer_access_token: store under the new lessee, then retain and push again.
  function Transfer(s: Store, now: U64, id: nat, from: Address, to: Address): Result<Store, Error> {
    if id !in s.tokens then Err(TokenNotFound)
    else
      var t := s.tokens[id];
      if !t.grant.transferable then Err(TransferNotAllowed)
      else if t.revoked then Err(TokenRevoked)
      else if now > t.expiration then Err(TokenExpired)
      else if t.lessee != from then Err(UnauthorizedTransfer)
      else if !FitsU32(t.transferCount + 1) then Err(HostAbort)
      else
        var r :- StoreToken(s, now, id, t.(lessee := to, transferCount := t.transferCount + 1));
        Ok(r.(lessees := Move(r.lessees, id, from, to)))
  }

  // The token of a lease.
  function OfLease(s: Store, leaseId: U64): Result<nat, Error> {
    if leaseId in s.leaseToToken && s.leaseToToken[leaseId] in s.tokens then Ok(s.leaseToToken[leaseId])
    else Err(TokenNotFound)
  }

  // revoke_access_token
  function Revoke(s: Store, now: U64, leaseId: U64, reason: Reason): Result<Store, Error> {
    var id := OfLease(s, leaseId);
    if id.Err? then Err(id.error)
    else
      var t := s.tokens[id.value];
      StoreToken(s, now, id.value, t.(revoked := true, revokedAt := Some(now), reason := Some(reason)))
  }

  // renew_access_token
  function Renew(s: Store, now: U64, leaseId: U64, expiration: U64): Result<Store, Error> {
    var id := OfLease(s, leaseId);
    if id.Err? then Err(id.error)
    else if s.tokens[id.value].revoked then Err(TokenRevoked)
    else StoreToken(s, now, id.value, s.tokens[id.value].(expiration := expiration))
  }

  // handle_lease_state_change
  function StateChange(s: Store, now: U64, leaseId: U64, status: LeaseStatus): Result<Store, Error> {
    match status
    case Terminated => Revoke(s, now, leaseId, LeaseTerminated)
    case Expired => Revoke(s, now, leaseId, LeaseExpired)
    case Disputed => Revoke(s, now, leaseId, LeaseDisputed)
    case _ => Ok(s)
  }

  // verify_access_token, its effect on the store
  function RecordVerification(s: Store, now: U64, id: nat): Result<Store, Error> {
    if id !in s.tokens then Err(TokenNotFound)
    else if !FitsU32(s.tokens[id].verifications + 1) then Err(HostAbort)
    else
      var t := s.tokens[id];
      Ok(s.(tokens := s.tokens[id := t.(lastVerified := now, verifications := t.verifications + 1)]))
  }

  // is_token_valid
  predicate IsTokenValid(t: Token, now: U64) { !t.revoked && now <= t.expiration }

  // A response about a token: valid until the time given as remaining has passed, unless revoked.
  predicate Describes(r: Response, id: nat, t: Token, now: U64) {
    && r.tokenId == id && r.lessee == t.lessee && r.asset == t.grant.asset && r.accessLevel == t.grant.accessLevel
    && r.transferable == t.grant.transferable && r.expiration == t.expiration && r.verifiedAt == now
    && (r.isValid <==> IsTokenValid(t, now)) && r.remaining == Max(0, t.expiration - now)
    && (forall later: U64 | r.isValid && now <= later :: IsTokenValid(t, later) <==> later <= now + r.remaining)
  }

  // ---- Runs ----

  datatype Op =
    | MintOp(leaseId: U64, grant: Grant, lease: Option<LeaseInstance>)
    | TransferOp(id: nat, from: Address, to: Address)
    | RevokeOp(leaseId: U64, reason: Reason)
    | RenewOp(leaseId: U64, expiration: U64)
    | StateOp(leaseId: U64, status: LeaseStatus)
    | VerifyOp(id: nat)

  datatype Call = Call(now: U64, op: Op)

  function Step(s: Store, c: Call): Result<Store, Error> {
    match c.op
    case MintOp(leaseId, g, lease) => Mint(s, c.now, leaseId, g, lease)
    case TransferOp(id, from, to) => Transfer(s, c.now, id, from, to)
    case RevokeOp(leaseId, reason) => Revoke(s, c.now, leaseId, reason)
    case RenewOp(leaseId, expiration) => Renew(s, c.now, leaseId, expiration)
    case StateOp(leaseId, status) => StateChange(s, c.now, leaseId, status)
    case VerifyOp(id) => RecordVerification(s, c.now, id)
  }

  function Apply(s: Store, c: Call): Store {
    var r := Step(s, c);
    if r.Ok? then r.value else s
  }

  function Run(s: Store, calls: seq<Call>): Store
    decreases |calls|
  {
    if calls == [] then s else Run(Apply(s, calls[0]), calls[1..])
  }

  // ---- What every run keeps ----

  predicate Paired(s: Store, id: nat)
    requires id in s.tokens
  {
    var l := s.tokens[id].leaseId;
    l in s.leaseToToken && s.leaseToToken[l] == id && id / 0x1_0000_0000_0000_0000 == l
  }

  predicate Mapped(s: Store, l: U64)
    requires l in s.leaseToToken
  {
    s.leaseToToken[l] in s.tokens && s.tokens[s.leaseToToken[l]].leaseId == l
  }

  // A token is in a lessee's list, any number of times, exactly when that lessee owns it.
  predicate Owned(s: Store, id: nat, a: Address) {
    Count(s.lessees, a, id) > 0 <==> id in s.tokens && s.tokens[id].lessee == a
  }

  // The same for the asset it opens.
  predicate Filed(s: Store, id: nat, a: AssetId) {
    Count(s.assets, a, id) > 0 <==> id in s.tokens && s.tokens[id].grant.asset == a
  }

  ghost predicate StoreOk(s: Store) {
    && (forall id | id in s.tokens :: Paired(s, id))
    && (forall l | l in s.leaseToToken :: Mapped(s, l))
    && (forall id: nat, a: Address :: Owned(s, id, a))
    && (forall id: nat, a: AssetId :: Filed(s, id, a))
  }

  // The token keeps its place in all tables.
  predicate SamePlace(t: Token, t': Token) {
    t'.leaseId == t.leaseId && t'.lessee == t.lessee && t'.grant.asset == t.grant.asset
  }

  // Storing a token again in the same place.
  lemma RestoreKeepsStore(s: Store, now: U64, id: nat, t: Token)
    requires StoreOk(s) && id in s.tokens && SamePlace(s.tokens[id], t)
    ensures var r := StoreToken(s, now, id, t);
            r.Ok? ==> StoreOk(r.value) && r.value.leaseToToken == s.leaseToToken
  {
    var r := StoreToken(s, now, id, t);
    if r.Ok? {
      var s' := r.value;
      assert Paired(s, id);
      forall x | x in s'.tokens ensures Paired(s', x) { assert Paired(s, x); }
      forall l | l in s'.leaseToToken ensures Mapped(s', l) { assert Mapped(s, l); }
      forall x: nat, a: Address ensures Owned(s', x, a) {
        assert Owned(s, x, a);
        PushCounts(s.lessees, t.lessee, id, a, x);
      }
      forall x: nat, a: AssetId ensures Filed(s', x, a) {
        assert Filed(s, x, a);
        PushCounts(s.assets, t.grant.asset, id, a, x);
      }
      assert s'.leaseToToken == s.leaseToToken;
    }
  }

  // Storing a token for the first time, for a lease that has none.
  lemma StoreKeepsStore(s: Store, now: U64, id: nat, t: Token)
    requires StoreOk(s) && id !in s.tokens && t.leaseId !in s.leaseToToken
    requires id / 0x1_0000_0000_0000_0000 == t.leaseId
    ensures var r := StoreToken(s, now, id, t); r.Ok? ==> StoreOk(r.value)
  {
    var r := StoreToken(s, now, id, t);
    if r.Ok? {
      var s' := r.value;
      forall x | x in s'.tokens ensures Paired(s', x) {
        if x != id { assert Paired(s, x); }
      }
      forall l | l in s'.leaseToToken ensures Mapped(s', l) {
        if l != t.leaseId { assert Mapped(s, l); }
      }
      forall x: nat, a: Address ensures Owned(s', x, a) {
        assert Owned(s, x, a);
        PushCounts(s.lessees, t.lessee, id, a, x);
      }
      forall x: nat, a: AssetId ensures Filed(s', x, a) {
        assert Filed(s, x, a);
        PushCounts(s.assets, t.grant.asset, id, a, x);
      }
    }
  }

  lemma MintKeepsStore(s: Store, now: U64, leaseId: U64, g: Grant, lease: Option<LeaseInstance>)
    requires StoreOk(s)
    ensures var r := Mint(s, now, leaseId, g, lease);
            r.Ok? ==> StoreOk(r.value) && TokenId(leaseId, now) !in s.tokens
  {
    if Mint(s, now, leaseId, g, lease).Ok? {
      var id := TokenId(leaseId, now);
      assert id in s.tokens ==> Paired(s, id);
      StoreKeepsStore(s, now, id, Token(leaseId, lease.value.tenant, g, lease.value.endDate, now, now, 0, 0,
                                        false, None, None));
    }
  }

  // Pushing onto the new list, then retaining and pushing again, leaves the token there and not behind.
  lemma StoredThenMoved(h: Lists, id: nat, from: Address, to: Address, a: Address, x: nat)
    ensures var n := Count(Move(Push(h, to, id), id, from, to), a, x);
            if x != id then n == Count(h, a, x)
            else if a == to then n > 0
            else if a == from then n == 0
            else n == Count(h, a, x)
  {
    PushCounts(h, to, id, a, x);
    MoveCounts(Push(h, to, id), id, from, to, a, x);
  }

  // The record after an accepted transfer, and the store around it.
  function Transferred(t: Token, to: Address): Token
    requires FitsU32(t.transferCount + 1)
  {
    t.(lessee := to, transferCount := t.transferCount + 1)
  }

  function Moved(s: Store, id: nat, t: Token, from: Address): Store {
    Store(s.tokens[id := t], s.leaseToToken[t.leaseId := id], Move(Push(s.lessees, t.lessee, id), id, from, t.lessee),
          Push(s.assets, t.grant.asset, id))
  }

  lemma TransferMoves(s: Store, now: U64, id: nat, from: Address, to: Address)
    requires Transfer(s, now, id, from, to).Ok?
    ensures id in s.tokens && s.tokens[id].lessee == from && FitsU32(s.tokens[id].transferCount + 1)
    ensures Transfer(s, now, id, from, to).value == Moved(s, id, Transferred(s.tokens[id], to), from)
  {
  }

  lemma MovedKeepsStore(s: Store, id: nat, t: Token)
    requires StoreOk(s) && id in s.tokens
    requires t.leaseId == s.tokens[id].leaseId && t.grant.asset == s.tokens[id].grant.asset
    ensures var s' := Moved(s, id, t, s.tokens[id].lessee); StoreOk(s') && s'.leaseToToken == s.leaseToToken
  {
    var s', from := Moved(s, id, t, s.tokens[id].lessee), s.tokens[id].lessee;
    assert Paired(s, id);
    assert s'.leaseToToken == s.leaseToToken;
    forall x | x in s'.tokens ensures Paired(s', x) { assert Paired(s, x); }
    forall l | l in s'.leaseToToken ensures Mapped(s', l) { assert Mapped(s, l); }
    forall x: nat, a: Address ensures Owned(s', x, a) {
      assert Owned(s, x, a);
      StoredThenMoved(s.lessees, id, from, t.lessee, a, x);
    }
    forall x: nat, a: AssetId ensures Filed(s', x, a) {
      assert Filed(s, x, a);
      PushCounts(s.assets, t.grant.asset, id, a, x);
    }
  }

  lemma TransferKeepsStore(s: Store, now: U64, id: nat, from: Address, to: Address)
    requires StoreOk(s)
    ensures var r := Transfer(s, now, id, from, to);
            r.Ok? ==> StoreOk(r.value) && r.value.leaseToToken == s.leaseToToken
  {
    if Transfer(s, now, id, from, to).Ok? {
      TransferMoves(s, now, id, from, to);
      MovedKeepsStore(s, id, Transferred(s.tokens[id], to));
    }
  }

  lemma VerificationKeepsStore(s: Store, now: U64, id: nat)
    requires StoreOk(s)
    ensures var r := RecordVerification(s, now, id); r.Ok? ==> StoreOk(r.value)
  {
    var r := RecordVerification(s, now, id);
    if r.Ok? {
      var s' := r.value;
      forall x | x in s'.tokens ensures Paired(s', x) { assert Paired(s, x); }
      forall l | l in s'.leaseToToken ensures Mapped(s', l) { assert Mapped(s, l); }
      forall x: nat, a: Address ensures Owned(s', x, a) { assert Owned(s, x, a); }
      forall x: nat, a: AssetId ensures Filed(s', x, a) { assert Filed(s, x, a); }
    }
  }

  // The lease has a token, and it is revoked.
  predicate LeaseRevoked(s: Store, l: U64) {
    l in s.leaseToToken && s.leaseToToken[l] in s.tokens && s.tokens[s.leaseToToken[l]].revoked
  }

  lemma RevokeKeepsStore(s: Store, now: U64, leaseId: U64, reason: Reason)
    requires StoreOk(s)
    ensures var r := Revoke(s, now, leaseId, reason);
            && (r.Ok? <==> OfLease(s, leaseId).Ok? && now <= s.tokens[OfLease(s, leaseId).value].expiration)
            && (r.Ok? ==> StoreOk(r.value) && LeaseRevoked(r.value, leaseId)
                          && r.value.leaseToToken == s.leaseToToken)
  {
    if leaseId in s.leaseToToken {
      assert Mapped(s, leaseId);
      var id := s.leaseToToken[leaseId];
      RestoreKeepsStore(s, now, id, s.tokens[id].(revoked := true, revokedAt := Some(now), reason := Some(reason)));
    }
  }

  lemma RenewKeepsStore(s: Store, now: U64, leaseId: U64, expiration: U64)
    requires StoreOk(s)
    ensures var r := Renew(s, now, leaseId, expiration); r.Ok? ==> StoreOk(r.value)
  {
    if leaseId in s.leaseToToken {
      assert Mapped(s, leaseId);
      var id := s.leaseToToken[leaseId];
      RestoreKeepsStore(s, now, id, s.tokens[id].(expiration := expiration));
    }
  }

  lemma StateChangeKeepsStore(s: Store, now: U64, leaseId: U64, status: LeaseStatus)
    requires StoreOk(s)
    ensures var r := StateChange(s, now, leaseId, status); r.Ok? ==> StoreOk(r.value)
  {
    match status
    case Terminated => RevokeKeepsStore(s, now, leaseId, LeaseTerminated);
    case Expired => RevokeKeepsStore(s, now, leaseId, LeaseExpired);
    case Disputed => RevokeKeepsStore(s, now, leaseId, LeaseDisputed);
    case _ =>
  }

  lemma StepKeepsStore(s: Store, c: Call)
    requires StoreOk(s)
    ensures StoreOk(Apply(s, c))
  {
    match c.op
    case MintOp(leaseId, g, lease) => MintKeepsStore(s, c.now, leaseId, g, lease);
    case TransferOp(id, from, to) => TransferKeepsStore(s, c.now, id, from, to);
    case RevokeOp(leaseId, reason) => RevokeKeepsStore(s, c.now, leaseId, reason);
    case RenewOp(leaseId, expiration) => RenewKeepsStore(s, c.now, leaseId, expiration);
    case StateOp(leaseId, status) => StateChangeKeepsStore(s, c.now, leaseId, status);
    case VerifyOp(id) => VerificationKeepsStore(s, c.now, id);
  }

  /** Tokens and the lists of lessees and assets agree after every run. */
  lemma {:induction false} RunKeepsStore(s: Store, calls: seq<Call>)
    requires StoreOk(s)
    ensures StoreOk(Run(s, calls))
    decreases |calls|
  {
    if calls == [] {
    } else {
      StepKeepsStore(s, calls[0]);
      RunKeepsStore(Apply(s, calls[0]), calls[1..]);
    }
  }

  // ---- What each call answers and changes ----

  // Only the token id changes, which is t afterwards.
  ghost predicate OnlyToken(s: Store, s': Store, id: nat, t: Token) {
    && s'.tokens.Keys == s.tokens.Keys + {id} && s'.tokens[id] == t
    && (forall x | x in s.tokens && x != id :: s'.tokens[x] == s.tokens[x])
    && s'.leaseToToken.Keys == s.leaseToToken.Keys + {t.leaseId} && s'.leaseToToken[t.leaseId] == id
    && (forall l | l in s.leaseToToken && l != t.leaseId :: s'.leaseToToken[l] == s.leaseToToken[l])
    && ListsMove(s.lessees, s'.lessees, id) && ListsMove(s.assets, s'.assets, id)
  }

  lemma StoreTokenExact(s: Store, now: U64, id: nat, t: Token)
    ensures var r := StoreToken(s, now, id, t);
            && (r.Ok? <==> now <= t.expiration) && (r.Err? ==> r.error == HostAbort)
            && (r.Ok? ==>
                  && OnlyToken(s, r.value, id, t) && Count(r.value.lessees, t.lessee, id) > 0
                  && Count(r.value.assets, t.grant.asset, id) > 0)
  {
    PushListsMove(s.lessees, t.lessee, id);
    PushListsMove(s.assets, t.grant.asset, id);
  }

  // A token as a mint makes it.
  predicate Fits(t: Token, leaseId: U64, g: Grant, lease: LeaseInstance, now: U64) {
    && t.leaseId == leaseId && t.lessee == lease.tenant && t.grant == g && t.expiration == lease.endDate
    && t.mintedAt == now && t.lastVerified == now && t.verifications == 0 && t.transferCount == 0
    && !t.revoked && t.revokedAt == None && t.reason == None
  }

  /** An active lease with its deposit held gets one token, for its tenant and to its end. */
  lemma MintExact(s: Store, now: U64, leaseId: U64, g: Grant, lease: Option<LeaseInstance>)
    ensures var r, id := Mint(s, now, leaseId, g, lease), TokenId(leaseId, now);
            var open := lease.Some? && lease.value.status == Active && lease.value.depositStatus == Held;
            && (r == Err(LeaseNotFound) <==> lease.None?)
            && (r == Err(InvalidLeaseState) <==> lease.Some? && !open)
            && (r == Err(TokenAlreadyExists) <==> open && leaseId in s.leaseToToken)
            && (r.Ok? <==> open && leaseId !in s.leaseToToken && now <= lease.value.endDate)
            && (r.Ok? ==>
                  && id in r.value.tokens && OnlyToken(s, r.value, id, r.value.tokens[id])
                  && Fits(r.value.tokens[id], leaseId, g, lease.value, now))
  {
    if lease.Some? {
      StoreTokenExact(s, now, TokenId(leaseId, now),
                      Token(leaseId, lease.value.tenant, g, lease.value.endDate, now, now, 0, 0, false, None, None));
    }
  }

  /** Only the lessee hands over a valid, transferable token. */
  lemma TransferDecided(s: Store, now: U64, id: nat, from: Address, to: Address)
    ensures var r := Transfer(s, now, id, from, to);
            && (r == Err(TokenNotFound) <==> id !in s.tokens)
            && (id in s.tokens ==>
                  var t := s.tokens[id];
                  && (r == Err(TransferNotAllowed) <==> !t.grant.transferable)
                  && (r == Err(TokenRevoked) <==> t.grant.transferable && t.revoked)
                  && (r == Err(TokenExpired) <==> t.grant.transferable && !t.revoked && t.expiration < now)
                  && (r == Err(UnauthorizedTransfer) <==>
                      t.grant.transferable && IsTokenValid(t, now) && t.lessee != from)
                  && (r.Ok? <==>
                      && t.grant.transferable && IsTokenValid(t, now) && t.lessee == from
                      && FitsU32(t.transferCount + 1)))
  {
  }

  /** An accepted transfer changes the token's lessee and count, and moves it between their lists, and no more. */
  lemma TransferExact(s: Store, now: U64, id: nat, from: Address, to: Address)
    requires Transfer(s, now, id, from, to).Ok?
    ensures id in s.tokens && id in Transfer(s, now, id, from, to).value.tokens
    ensures var s', t := Transfer(s, now, id, from, to).value, s.tokens[id];
            var t' := s'.tokens[id];
            && OnlyToken(s, s', id, t') && t'.lessee == to && t'.transferCount == t.transferCount as int + 1
            && t'.(lessee := t.lessee, transferCount := t.transferCount) == t
            && Count(s'.lessees, to, id) > 0 && (from != to ==> Count(s'.lessees, from, id) == 0)
  {
    TransferMoves(s, now, id, from, to);
    MovedOnly(s, id, Transferred(s.tokens[id], to), from);
  }

  lemma MovedOnly(s: Store, id: nat, t: Token, from: Address)
    ensures var s' := Moved(s, id, t, from);
            && OnlyToken(s, s', id, t) && Count(s'.lessees, t.lessee, id) > 0
            && (from != t.lessee ==> Count(s'.lessees, from, id) == 0)
  {
    PushedThenMoved(s.lessees, id, from, t.lessee);
    PushListsMove(s.assets, t.grant.asset, id);
  }

  lemma PushedThenMoved(h: Lists, id: nat, from: Address, to: Address)
    ensures var h' := Move(Push(h, to, id), id, from, to);
            ListsMove(h, h', id) && Count(h', to, id) > 0 && (from != to ==> Count(h', from, id) == 0)
  {
    var pushed := Push(h, to, id);
    PushListsMove(h, to, id);
    MoveListsMove(pushed, id, from, to);
    ListsMoveTwice(h, pushed, Move(pushed, id, from, to), id);
  }

  /** A revocation marks the lease's token, which must not have expired, with time and reason. */
  lemma RevokeExact(s: Store, now: U64, leaseId: U64, reason: Reason)
    requires StoreOk(s)
    ensures var r := Revoke(s, now, leaseId, reason);
            && (r == Err(TokenNotFound) <==> leaseId !in s.leaseToToken)
            && (leaseId in s.leaseToToken ==>
                  && s.leaseToToken[leaseId] in s.tokens
                  && var id := s.leaseToToken[leaseId];
                     var t := s.tokens[id];
                     && (r.Ok? <==> now <= t.expiration) && (r == Err(HostAbort) <==> t.expiration < now)
                     && (r.Ok? ==>
                           var t' := r.value.tokens[id];
                           && OnlyToken(s, r.value, id, t')
                           && t'.revoked && t'.revokedAt == Some(now) && t'.reason == Some(reason)
                           && t' == t.(revoked := true, revokedAt := t'.revokedAt, reason := t'.reason)))
  {
    if leaseId in s.leaseToToken {
      assert Mapped(s, leaseId);
      var id := s.leaseToToken[leaseId];
      StoreTokenExact(s, now, id, s.tokens[id].(revoked := true, revokedAt := Some(now), reason := Some(reason)));
    }
  }

  /** A renewal gives an unrevoked token a new end that has not passed, and changes nothing else. */
  lemma RenewExact(s: Store, now: U64, leaseId: U64, expiration: U64)
    requires StoreOk(s)
    ensures var r := Renew(s, now, leaseId, expiration);
            && (r == Err(TokenNotFound) <==> leaseId !in s.leaseToToken)
            && (leaseId in s.leaseToToken ==>
                  && s.leaseToToken[leaseId] in s.tokens
                  && var id := s.leaseToToken[leaseId];
                     var t := s.tokens[id];
                     && (r == Err(TokenRevoked) <==> t.revoked) && (r.Ok? <==> !t.revoked && now <= expiration)
                     && (r.Ok? ==>
                           && OnlyToken(s, r.value, id, r.value.tokens[id])
                           && r.value.tokens[id].expiration == expiration
                           && r.value.tokens[id].(expiration := t.expiration) == t))
  {
    if leaseId in s.leaseToToken {
      assert Mapped(s, leaseId);
      var id := s.leaseToToken[leaseId];
      StoreTokenExact(s, now, id, s.tokens[id].(expiration := expiration));
    }
  }

  /** The end of a lease revokes with the reason of its kind; any other change of state does nothing. */
  lemma StateChangeExact(s: Store, now: U64, leaseId: U64, status: LeaseStatus)
    ensures status == Terminated ==> StateChange(s, now, leaseId, status) == Revoke(s, now, leaseId, LeaseTerminated)
    ensures status == Expired ==> StateChange(s, now, leaseId, status) == Revoke(s, now, leaseId, LeaseExpired)
    ensures status == Disputed ==> StateChange(s, now, leaseId, status) == Revoke(s, now, leaseId, LeaseDisputed)
    ensures status !in {Terminated, Expired, Disputed} ==> StateChange(s, now, leaseId, status) == Ok(s)
  {
  }

  /** Verifying an existing token, valid or not, changes its statistics only. */
  lemma VerificationExact(s: Store, now: U64, id: nat)
    ensures var r := RecordVerification(s, now, id);
            && (r == Err(TokenNotFound) <==> id !in s.tokens)
            && (r.Ok? <==> id in s.tokens && FitsU32(s.tokens[id].verifications + 1))
            && (r.Ok? ==>
                  var t, t' := s.tokens[id], r.value.tokens[id];
                  && r.value.tokens.Keys == s.tokens.Keys
                  && (forall x | x in s.tokens && x != id :: r.value.tokens[x] == s.tokens[x])
                  && t'.lastVerified == now && t'.verifications == t.verifications as int + 1
                  && t' == t.(lastVerified := t'.lastVerified, verifications := t'.verifications)
                  && r.value.leaseToToken == s.leaseToToken && r.value.lessees == s.lessees
                  && r.value.assets == s.assets)
  {
  }

  // ---- Revocation is final ----

  lemma StepKeepsRevoked(s: Store, c: Call, l: U64)
    requires StoreOk(s) && LeaseRevoked(s, l)
    ensures LeaseRevoked(Apply(s, c), l)
  {
    var id := s.leaseToToken[l];
    assert Paired(s, id);
    match c.op
    case MintOp(leaseId, g, lease) => MintKeepsStore(s, c.now, leaseId, g, lease);
    case TransferOp(x, from, to) => TransferKeepsStore(s, c.now, x, from, to);
    case RevokeOp(leaseId, reason) => RevokeOther(s, c.now, leaseId, reason, l);
    case RenewOp(leaseId, expiration) =>
      if leaseId in s.leaseToToken { assert Mapped(s, leaseId); }
    case StateOp(leaseId, status) =>
      RevokeOther(s, c.now, leaseId, LeaseTerminated, l);
      RevokeOther(s, c.now, leaseId, LeaseExpired, l);
      RevokeOther(s, c.now, leaseId, LeaseDisputed, l);
    case VerifyOp(x) =>
  }

  lemma RevokeOther(s: Store, now: U64, leaseId: U64, reason: Reason, l: U64)
    requires StoreOk(s) && LeaseRevoked(s, l)
    ensures var r := Revoke(s, now, leaseId, reason); r.Ok? ==> LeaseRevoked(r.value, l)
  {
    if leaseId in s.leaseToToken { assert Mapped(s, leaseId); }
  }

  lemma {:induction false} RunKeepsRevoked(s: Store, calls: seq<Call>, l: U64)
    requires StoreOk(s) && LeaseRevoked(s, l)
    ensures StoreOk(Run(s, calls)) && LeaseRevoked(Run(s, calls), l)
    decreases |calls|
  {
    if calls == [] {
    } else {
      StepKeepsStore(s, calls[0]);
      StepKeepsRevoked(s, calls[0], l);
      RunKeepsRevoked(Apply(s, calls[0]), calls[1..], l);
    }
  }

  /** Once a lease's token is revoked, no later run gives that lease a token that is valid at any time. */
  lemma RevokedForGood(s: Store, calls: seq<Call>, l: U64, id: nat, now: U64)
    requires StoreOk(s) && LeaseRevoked(s, l)
    requires id in Run(s, calls).tokens && Run(s, calls).tokens[id].leaseId == l
    ensures !IsTokenValid(Run(s, calls).tokens[id], now)
  {
    RunKeepsRevoked(s, calls, l);
    assert Paired(Run(s, calls), id);
  }

  // ---- Leases that end after their token has expired ----

  predicate HoldsValid(s: Store, l: U64, at: U64) {
    l in s.leaseToToken && s.leaseToToken[l] in s.tokens && IsTokenValid(s.tokens[s.leaseToToken[l]], at)
  }

  // All calls happen from now on.
  predicate NotBefore(calls: seq<Call>, now: U64) { forall i | 0 <= i < |calls| :: now <= calls[i].now }

  // Some run from now on leaves the lease with a token that is valid now or later.
  ghost predicate CanHoldValid(s: Store, l: U64, now: U64) {
    exists calls: seq<Call>, at: U64 :: NotBefore(calls, now) && now <= at && HoldsValid(Run(s, calls), l, at)
  }

  lemma RenewalRevives(s: Store, now: U64, l: U64)
    requires StoreOk(s) && l in s.leaseToToken && s.leaseToToken[l] in s.tokens
    requires !s.tokens[s.leaseToToken[l]].revoked
    ensures HoldsValid(Run(s, [Call(now, RenewOp(l, now))]), l, now)
  {
    assert Mapped(s, l);
    var c := Call(now, RenewOp(l, now));
    assert Run(s, [c]) == Run(Apply(s, c), [c][1..]) == Apply(s, c);
  }

  /**
   A lease that is terminated, expires or is disputed can hold a valid token from then on exactly when
   its token had expired by then and was not revoked before: the revocation aborts, and a renewal follows.
   */
  lemma RevivalExactly(s: Store, now: U64, l: U64, status: LeaseStatus)
    requires StoreOk(s) && l in s.leaseToToken && status in {Terminated, Expired, Disputed}
    ensures s.leaseToToken[l] in s.tokens
    ensures var t := s.tokens[s.leaseToToken[l]];
            CanHoldValid(Apply(s, Call(now, StateOp(l, status))), l, now) <==> !t.revoked && t.expiration < now
  {
    assert Mapped(s, l);
    var t, s' := s.tokens[s.leaseToToken[l]], Apply(s, Call(now, StateOp(l, status)));
    RevokeKeepsStore(s, now, l, LeaseTerminated);
    RevokeKeepsStore(s, now, l, LeaseExpired);
    RevokeKeepsStore(s, now, l, LeaseDisputed);
    if !t.revoked && t.expiration < now {
      assert s' == s;
      RenewalRevives(s, now, l);
      assert NotBefore([Call(now, RenewOp(l, now))], now);
    } else {
      assert StoreOk(s') && LeaseRevoked(s', l);
      forall calls: seq<Call>, at: U64 ensures !HoldsValid(Run(s', calls), l, at) {
        RunKeepsRevoked(s', calls, l);
      }
    }
  }

  // A lease terminated a second after its token expired, and the token renewed.
  lemma TerminatedTokenRevived()
    ensures var lease := LeaseInstance(Active, Held, 5, 0, 10, 100, 50, 50);
            var minted := Apply(EMPTY, Call(1, MintOp(7, Grant(3, Full, false), Some(lease))));
            var terminated := Apply(minted, Call(11, StateOp(7, Terminated)));
            && Step(minted, Call(11, StateOp(7, Terminated))) == Err(HostAbort)
            && HoldsValid(Apply(terminated, Call(11, RenewOp(7, 20))), 7, 15)
  {
  }

  // ---- The manager as the source runs it ----

  class AccessTokens {
    var tokens: map<nat, Token>
    var leaseToToken: map<U64, nat>
    var lessees: Lists
    var assets: Lists

    function Stored(): Store
      reads this
    {
      Store(tokens, leaseToToken, lessees, assets)
    }

    ghost predicate Valid()
      reads this
    {
      StoreOk(Stored())
    }

    constructor ()
      ensures Stored() == EMPTY && Valid()
    {
      tokens, leaseToToken, lessees, assets := map[], map[], map[], map[];
    }

    // Storing a token again in its place keeps the tables; its other callers restore them.
    method Put(now: U64, id: nat, t: Token) returns (r: Result<(), Error>)
      modifies this
      ensures old(Valid()) && (r.Err? || (id in old(tokens) && SamePlace(old(tokens)[id], t))) ==> Valid()
      ensures match StoreToken(old(Stored()), now, id, t)
              case Ok(s) => Stored() == s && r == Ok(())
              case Err(e) => Stored() == old(Stored()) && r == Err(e)
    {
      if Valid() && id in tokens && SamePlace(tokens[id], t) {
        RestoreKeepsStore(Stored(), now, id, t);
      }
      if t.expiration < now { return Err(HostAbort); }
      tokens := tokens[id := t];
      leaseToToken := leaseToToken[t.leaseId := id];
      lessees := lessees[t.lessee := ListOf(lessees, t.lessee) + [id]];
      assets := assets[t.grant.asset := ListOf(assets, t.grant.asset) + [id]];
      return Ok(());
    }

    method MintToken(now: U64, leaseId: U64, g: Grant, lease: Option<LeaseInstance>) returns (r: Result<nat, Error>)
      requires Valid()
      modifies this
      ensures Valid()
      ensures match Mint(old(Stored()), now, leaseId, g, lease)
              case Ok(s) => Stored() == s && r == Ok(TokenId(leaseId, now))
              case Err(e) => Stored() == old(Stored()) && r == Err(e)
    {
      MintKeepsStore(Stored(), now, leaseId, g, lease);
      if lease.None? { return Err(LeaseNotFound); }
      if lease.value.status != Active { return Err(InvalidLeaseState); }
      if lease.value.depositStatus != Held { return Err(InvalidLeaseState); }
      if leaseId in leaseToToken { return Err(TokenAlreadyExists); }
      var id := TokenId(leaseId, now);
      var put := Put(now, id, Token(leaseId, lease.value.tenant, g, lease.value.endDate, now, now, 0, 0,
                                    false, None, None));
      return if put.Ok? then Ok(id) else Err(put.error);
    }

    method TransferToken(now: U64, id: nat, from: Address, to: Address) returns (r: Result<(), Error>)
      requires Valid()
      modifies this
      ensures Valid()
      ensures match Transfer(old(Stored()), now, id, from, to)
              case Ok(s) => Stored() == s && r == Ok(())
              case Err(e) => Stored() == old(Stored()) && r == Err(e)
    {
      TransferKeepsStore(Stored(), now, id, from, to);
      if id !in tokens { return Err(TokenNotFound); }
      var t := tokens[id];
      if !t.grant.transferable { return Err(TransferNotAllowed); }
      if t.revoked { return Err(TokenRevoked); }
      if now > t.expiration { return Err(TokenExpired); }
      if t.lessee != from { return Err(UnauthorizedTransfer); }
      if !FitsU32(t.transferCount + 1) { return Err(HostAbort); }
      r := Put(now, id, t.(lessee := to, transferCount := t.transferCount + 1));
      lessees := lessees[from := Without(ListOf(lessees, from), id)];
      lessees := lessees[to := ListOf(lessees, to) + [id]];
    }

    method RevokeToken(now: U64, leaseId: U64, reason: Reason) returns (r: Result<(), Error>)
      requires Valid()
      modifies this
      ensures Valid()
      ensures match Revoke(old(Stored()), now, leaseId, reason)
              case Ok(s) => Stored() == s && r == Ok(())
              case Err(e) => Stored() == old(Stored()) && r == Err(e)
    {
      RevokeKeepsStore(Stored(), now, leaseId, reason);
      if leaseId !in leaseToToken || leaseToToken[leaseId] !in tokens { return Err(TokenNotFound); }
      var id := leaseToToken[leaseId];
      var t := tokens[id];
      t := t.(revoked := true);
      t := t.(revokedAt := Some(now));
      t := t.(reason := Some(reason));
      r := Put(now, id, t);
    }

    method RenewToken(now: U64, leaseId: U64, expiration: U64) returns (r: Result<(), Error>)
      requires Valid()
      modifies this
      ensures Valid()
      ensures match Renew(old(Stored()), now, leaseId, expiration)
              case Ok(s) => Stored() == s && r == Ok(())
              case Err(e) => Stored() == old(Stored()) && r == Err(e)
    {
      RenewKeepsStore(Stored(), now, leaseId, expiration);
      if leaseId !in leaseToToken || leaseToToken[leaseId] !in tokens { return Err(TokenNotFound); }
      var id := leaseToToken[leaseId];
      if tokens[id].revoked { return Err(TokenRevoked); }
      r := Put(now, id, tokens[id].(expiration := expiration));
    }

    // The response describes the token as it was; the count goes up whether or not it is valid.
    method VerifyToken(now: U64, id: nat) returns (r: Result<Response, Error>)
      requires Valid()
      modifies this`tokens
      ensures Valid()
      ensures match RecordVerification(old(Stored()), now, id)
              case Ok(s) => Stored() == s && r.Ok? && Describes(r.value, id, old(tokens)[id], now)
              case Err(e) => Stored() == old(Stored()) && r == Err(e)
    {
      VerificationKeepsStore(Stored(), now, id);
      if id !in tokens { return Err(TokenNotFound); }
      var t := tokens[id];
      var isValid := !t.revoked && now <= t.expiration;
      var remaining := if now < t.expiration then t.expiration - now else 0;
      if !FitsU32(t.verifications + 1) { return Err(HostAbort); }
      tokens := tokens[id := t.(lastVerified := now, verifications := t.verifications + 1)];
      return Ok(Response(id, isValid, t.lessee, t.grant.asset, t.expiration, t.grant.accessLevel, now, remaining,
                         t.grant.transferable));
    }

    method HandleStateChange(now: U64, leaseId: U64, status: LeaseStatus) returns (r: Result<(), Error>)
      requires Valid()
      modifies this
      ensures Valid()
      ensures match StateChange(old(Stored()), now, leaseId, status)
              case Ok(s) => Stored() == s && r == Ok(())
              case Err(e) => Stored() == old(Stored()) && r == Err(e)
    {
      match status
      case Terminated => r := RevokeToken(now, leaseId, LeaseTerminated);
      case Expired => r := RevokeToken(now, leaseId, LeaseExpired);
      case Disputed => r := RevokeToken(now, leaseId, LeaseDisputed);
      case _ => r := Ok(());
    }
  }
}
