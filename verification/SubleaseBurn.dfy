/** The recursive burn as the source runs it, and what every run of the token manager keeps. */
module SubleaseBurn {
  import opened Arith
  import opened SubleaseForest

  // m is the deepest level of the tokens in s, or lo if that is deeper.
  predicate Deepest(d: Table, s: set<nat>, lo: nat, m: nat) {
    && lo <= m
    && (forall x | x in s && x in d :: d[x].depth <= m)
    && (m == lo || exists x :: x in s && x in d && d[x].depth == m)
  }

  class TokenManager {
    var roots: map<nat, Root>
    var tokens: Table
    var childIndex: map<nat, seq<nat>>

    function Stored(): Forest
      reads this
    {
      Forest(roots, tokens, childIndex)
    }

    // Depth bounded, child lists and parents mirrored, rights narrowing downward.
    ghost predicate Valid()
      reads this
    {
      ForestOk(Stored())
    }

    constructor (lesseeTokens: map<nat, Root>)
      ensures Stored() == Forest(lesseeTokens, map[], map[]) && Valid()
    {
      roots, tokens, childIndex := lesseeTokens, map[], map[];
    }

    // A new id that is not in use keeps the forest; DerivedIdClash says when ids clash.
    method MintDerived(now: U64, q: Request) returns (r: Result<nat, Error>)
      requires Valid()
      modifies this
      ensures r.Err? || Fresh(old(Stored()), Call(now, MintOp(q))) ==> Valid()
      ensures Fresh(old(Stored()), Call(now, MintOp(q))) ==> Persists(old(tokens), tokens)
      ensures match Mint(old(Stored()), now, q)
              case Ok(f) => Stored() == f && r == Ok(DerivedId(q.parent, now))
              case Err(e) => Stored() == old(Stored()) && r == Err(e)
    {
      ghost var after := Mint(Stored(), now, q);
      if Fresh(Stored(), Call(now, MintOp(q))) {
        MintKeepsForest(Stored(), now, q);
      }
      var parent := ParentOf(Stored(), q.parent);
      if parent.None? { return Err(ParentTokenNotFound); }
      var (root, parentDepth) := parent.value;
      if root.revoked { return Err(ParentTokenRevoked); }
      if now > root.expiration { return Err(ParentTokenExpired); }
      if !root.transferable { return Err(UnauthorizedSublease); }
      if parentDepth + 1 > MAX_DEPTH { return Err(HierarchyDepthExceeded); }
      if !ValidZone(q.zone) { return Err(InvalidSpatialZone); }
      var token := NewToken(q, now, root, parentDepth);
      if token.expiration < now { return Err(HostAbort); }
      StoreWithParent(token);
      assert Stored() == after.value;
      return Ok(token.tokenId);
    }

    // store_derived_token, then add_child_to_parent
    method StoreWithParent(token: Token)
      modifies this`tokens, this`childIndex
      ensures Stored() == Plant(old(Stored()), token)
    {
      var id, parent := token.tokenId, token.parent;
      tokens := tokens[id := token];
      if parent in tokens {
        tokens := tokens[parent := tokens[parent].(children := tokens[parent].children + [id])];
      }
      childIndex := childIndex[parent := (if parent in childIndex then childIndex[parent] else []) + [id]];
    }

    method TransferDerived(now: U64, id: nat, from: Address, to: Address) returns (r: Result<(), Error>)
      requires Valid()
      modifies this`tokens
      ensures Valid() && Persists(old(tokens), tokens)
      ensures match Transfer(old(Stored()), now, id, from, to)
              case Ok(f) => Stored() == f && r == Ok(())
              case Err(e) => Stored() == old(Stored()) && r == Err(e)
    {
      TransferKeepsForest(Stored(), now, id, from, to);
      r := ChangeHolder(now, id, from, to);
    }

    method ChangeHolder(now: U64, id: nat, from: Address, to: Address) returns (r: Result<(), Error>)
      modifies this`tokens
      ensures match Transfer(old(Stored()), now, id, from, to)
              case Ok(f) => Stored() == f && r == Ok(())
              case Err(e) => Stored() == old(Stored()) && r == Err(e)
    {
      if id !in tokens { return Err(ParentTokenNotFound); }
      var token := tokens[id];
      if !token.transferable { return Err(UnauthorizedSublease); }
      if token.revoked { return Err(ParentTokenRevoked); }
      if now > token.expiration { return Err(ParentTokenExpired); }
      if token.sublessee != from { return Err(UnauthorizedSublease); }
      if !FitsU32(token.transferCount + 1) { return Err(HostAbort); }
      token := token.(sublessee := to);
      token := token.(transferCount := token.transferCount + 1);
      tokens := tokens[id := token];
      return Ok(());
    }

    /**
     recursive_burn_internal: children first, each looked up in the table as it then stands. It ends
     because depth grows downward, never misses a child, and revokes exactly the subtree.
     */
    method BurnInternal(id: nat, now: U64, reason: Reason, burned: nat, maxDepth: nat)
      returns (ok: bool, burned': nat, maxDepth': nat)
      requires Shape(tokens)
      modifies this`tokens
      ensures ok <==> id in old(tokens)
      ensures !ok ==> tokens == old(tokens) && burned' == burned && maxDepth' == maxDepth
      ensures ok ==> tokens == RevokeAll(old(tokens), Subtree(old(tokens), id), now, reason)
      ensures ok ==> burned' == burned + |Subtree(old(tokens), id)|
      ensures ok ==> Deepest(old(tokens), Subtree(old(tokens), id), maxDepth, maxDepth')
      decreases if id in tokens then MAX_DEPTH - tokens[id].depth else 0, 1
    {
      if id !in tokens { return false, burned, maxDepth; }
      var token := tokens[id];
      ghost var d := tokens;
      assert Linked(d, id);
      burned', maxDepth' := BurnChildren(id, token, now, reason, burned, Max(maxDepth, token.depth));
      BurnEnd(d, id, now, reason);
      DeepestRoot(d, Below(d, id, |token.children|), id, maxDepth, maxDepth');
      tokens := tokens[id := Revoke(token, now, reason)];
      burned' := burned' + 1;
      ok := true;
    }

    // The loop over the children of a token, as that token was when the burn reached it.
    method BurnChildren(id: nat, token: Token, now: U64, reason: Reason, burned: nat, maxDepth: nat)
      returns (burned': nat, maxDepth': nat)
      requires Shape(tokens) && id in tokens && token == tokens[id] && token.depth <= MAX_DEPTH
      modifies this`tokens
      ensures Burning(old(tokens), id, |token.children|, now, reason, tokens, burned' - burned, maxDepth, maxDepth')
      decreases MAX_DEPTH - token.depth, 0
    {
      ghost var d := tokens;
      burned', maxDepth' := burned, maxDepth;
      BurnStart(d, id, now, reason, maxDepth);
      for k := 0 to |token.children|
        invariant Burning(d, id, k, now, reason, tokens, burned' - burned, maxDepth, maxDepth')
      {
        ghost var before, count, deepest := tokens, burned', maxDepth';
        BurnNext(d, id, k, now, reason, before, count - burned, maxDepth, deepest);
        var ok;
        ok, burned', maxDepth' := BurnInternal(token.children[k], now, reason, burned', maxDepth');
        BurnStep(d, id, k, now, reason, before, count - burned, maxDepth, deepest, tokens, burned' - burned, maxDepth');
      }
    }

    /**
     recursive_burn_hierarchy: the number of tokens burned, and the deepest level for the event. The
     recursion over child lists agrees with the definition by parent pointers.
     */
    method BurnHierarchy(id: nat, now: U64, reason: Reason) returns (r: Result<nat, Error>, deepest: nat)
      requires Valid()
      modifies this`tokens
      ensures Valid() && Persists(old(tokens), tokens)
      ensures match Burn(old(Stored()), now, id, reason)
              case Ok(f) => Stored() == f
              case Err(e) => Stored() == old(Stored()) && r == Err(e)
      ensures id in old(tokens) ==>
                && r == Ok(|Subtree(old(tokens), id)|)
                && tokens == RevokeAll(old(tokens), Subtree(old(tokens), id), now, reason)
                && Deepest(old(tokens), Subtree(old(tokens), id), 0, deepest)
    {
      BurnKeepsForest(Stored(), now, id, reason);
      if id !in tokens { return Err(ParentTokenNotFound), 0; }
      ghost var below, after := Subtree(tokens, id), Burn(Stored(), now, id, reason).value;
      var ok, burned, maxDepth := BurnInternal(id, now, reason, 0, 0);
      assert burned == |below| && Stored() == after;
      return Ok(burned), maxDepth;
    }
  }

  // After k children of id: the table, the number of burned tokens, and the deepest level so far.
  ghost predicate Burning(d: Table, id: nat, k: nat, now: U64, reason: Reason,
                          table: Table, count: int, lo: nat, m: nat)
  {
    && id in d && k <= |d[id].children|
    && table == RevokeAll(d, Below(d, id, k), now, reason)
    && count == |Below(d, id, k)|
    && Deepest(d, Below(d, id, k), lo, m)
  }

  lemma BurnStart(d: Table, id: nat, now: U64, reason: Reason, lo: nat)
    requires Shape(d) && id in d
    ensures Burning(d, id, 0, now, reason, d, 0, lo, lo)
  {
    assert Below(d, id, 0) == {};
    assert d == RevokeAll(d, {}, now, reason);
  }

  // The next child can be burned in the table as it stands.
  lemma BurnNext(d: Table, id: nat, k: nat, now: U64, reason: Reason, before: Table, count: int, lo: nat, m: nat)
    requires Shape(d) && Burning(d, id, k, now, reason, before, count, lo, m) && k < |d[id].children|
    ensures SameShape(d, before) && Shape(before)
    ensures var child := d[id].children[k];
            child in before && before[child].depth == d[id].depth + 1 <= MAX_DEPTH
  {
    assert Linked(d, id);
    assert Linked(d, d[id].children[k]);
    RevokeAllShape(d, Below(d, id, k), now, reason);
    SameShapeKeepsShape(d, before);
  }

  // Burning it extends the burned set by exactly its subtree.
  lemma BurnStep(d: Table, id: nat, k: nat, now: U64, reason: Reason,
                 before: Table, count: int, lo: nat, mid: nat, after: Table, count': int, m: nat)
    requires Shape(d) && Burning(d, id, k, now, reason, before, count, lo, mid) && k < |d[id].children|
    requires var s := Subtree(before, d[id].children[k]);
             && after == RevokeAll(before, s, now, reason)
             && count' == count + |s| && Deepest(before, s, mid, m)
    ensures Burning(d, id, k + 1, now, reason, after, count', lo, m)
  {
    var child := d[id].children[k];
    RevokeAllShape(d, Below(d, id, k), now, reason);
    SameShapeSubtree(d, before, child);
    BelowStep(d, id, k);
    RevokeTwice(d, Below(d, id, k), Subtree(d, child), now, reason);
    DeepestStep(d, before, Below(d, id, k), Subtree(before, child), lo, mid, m);
  }

  lemma RevokeOneMore(d: Table, s: set<nat>, id: nat, now: U64, reason: Reason)
    requires id in d
    ensures RevokeAll(d, s, now, reason)[id := Revoke(d[id], now, reason)] == RevokeAll(d, s + {id}, now, reason)
  {
  }

  lemma BurnEnd(d: Table, id: nat, now: U64, reason: Reason)
    requires Shape(d) && id in d
    ensures var below := Below(d, id, |d[id].children|);
            && RevokeAll(d, below, now, reason)[id := Revoke(d[id], now, reason)] ==
               RevokeAll(d, Subtree(d, id), now, reason)
            && Subtree(d, id) == below + {id}
            && |Subtree(d, id)| == |below| + 1
  {
    BelowAll(d, id);
    RevokeOneMore(d, Below(d, id, |d[id].children|), id, now, reason);
  }

  lemma DeepestStep(d: Table, before: Table, s: set<nat>, t: set<nat>, lo: nat, mid: nat, m: nat)
    requires SameShape(d, before) && Deepest(d, s, lo, mid) && Deepest(before, t, mid, m)
    ensures Deepest(d, s + t, lo, m)
  {
    if m != lo {
      if m == mid {
        var x :| x in s && x in d && d[x].depth == m;
        assert x in s + t;
      } else {
        var x :| x in t && x in before && before[x].depth == m;
        assert x in s + t && x in d;
      }
    }
  }

  lemma DeepestRoot(d: Table, s: set<nat>, id: nat, lo: nat, m: nat)
    requires id in d && Deepest(d, s, Max(lo, d[id].depth), m)
    ensures Deepest(d, s + {id}, lo, m)
  {
    if m != lo {
      if m == d[id].depth {
        assert id in s + {id};
      } else {
        var x :| x in s && x in d && d[x].depth == m;
        assert x in s + {id};
      }
    }
  }

  lemma RevokeTwice(d: Table, s: set<nat>, t: set<nat>, now: U64, reason: Reason)
    ensures RevokeAll(RevokeAll(d, s, now, reason), t, now, reason) == RevokeAll(d, s + t, now, reason)
  {
  }

  // ---- Whole runs ----

  datatype Op =
    | MintOp(request: Request)
    | TransferOp(id: nat, from: Address, to: Address)
    | BurnOp(id: nat, reason: Reason)
    | RootOp(id: nat, root: Root) // any change to the lessee-token table

  datatype Call = Call(now: U64, op: Op)

  function Step(f: Forest, c: Call): Result<Forest, Error> {
    match c.op
    case MintOp(q) => Mint(f, c.now, q)
    case TransferOp(id, from, to) => Transfer(f, c.now, id, from, to)
    case BurnOp(id, reason) => Burn(f, c.now, id, reason)
    case RootOp(id, root) => Ok(f.(roots := f.roots[id := root]))
  }

  function Apply(f: Forest, c: Call): Forest {
    var r := Step(f, c);
    if r.Ok? then r.value else f
  }

  function Run(f: Forest, calls: seq<Call>): Forest
    decreases |calls|
  {
    if calls == [] then f else Run(Apply(f, calls[0]), calls[1..])
  }

  // The hypothesis on identifiers: no call reuses one.
  predicate Fresh(f: Forest, c: Call) {
    match c.op
    case MintOp(q) => DerivedId(q.parent, c.now) !in f.tokens && DerivedId(q.parent, c.now) !in f.roots
    case RootOp(id, _) => id !in f.tokens
    case _ => true
  }

  predicate FreshRun(f: Forest, calls: seq<Call>)
    decreases |calls|
  {
    calls != [] ==> Fresh(f, calls[0]) && FreshRun(Apply(f, calls[0]), calls[1..])
  }

  /** When two mints clash: same second, and parents that agree in their low 64 bits. */
  lemma DerivedIdClash(parent: nat, timestamp: U64, parent': nat, timestamp': U64)
    ensures DerivedId(parent, timestamp) == DerivedId(parent', timestamp') <==>
            timestamp == timestamp' && parent % 0x1_0000_0000_0000_0000 == parent' % 0x1_0000_0000_0000_0000
    ensures DerivedId(parent, timestamp) % 0x1_0000_0000_0000_0000 == timestamp
    ensures DerivedId(parent, timestamp) / 0x1_0000_0000_0000_0000 == parent % 0x1_0000_0000_0000_0000
  {
  }

  // is_derived_token_valid
  predicate ValidAt(t: Token, now: U64) { !t.revoked && now <= t.expiration }

  // Tokens stay, keep their place and their term, and stay revoked.
  predicate Outlives(t: Token, t': Token) {
    && t'.parent == t.parent && t'.depth == t.depth && t'.expiration == t.expiration
    && (t.revoked ==> t'.revoked)
  }

  predicate Persists(d: Table, d': Table) { forall x | x in d :: x in d' && Outlives(d[x], d'[x]) }

  // ---- Minting, on the table ----

  lemma MintKeepsShape(d: Table, t: Token)
    requires Shape(d) && t.tokenId !in d && 1 <= t.depth <= MAX_DEPTH && t.children == [] && t.parent != t.tokenId
    requires if t.parent in d then d[t.parent].depth + 1 == t.depth else t.depth == 1
    requires forall x | x in d :: d[x].parent != t.tokenId
    ensures Shape(AddChild(d[t.tokenId := t], t.parent, t.tokenId))
  {
    var d' := AddChild(d[t.tokenId := t], t.parent, t.tokenId);
    forall x | x in d' ensures Linked(d', x) {
      if x != t.tokenId {
        assert Linked(d, x);
        if x == t.parent {
          assert t.tokenId !in d[x].children;
        }
      }
    }
  }

  lemma MintKeepsNarrowing(d: Table, t: Token)
    requires Narrowing(d) && t.tokenId !in d && t.parent != t.tokenId
    requires t.parent in d ==> t.expiration <= d[t.parent].expiration && !d[t.parent].revoked
    requires forall x | x in d :: d[x].parent != t.tokenId
    ensures Narrowing(AddChild(d[t.tokenId := t], t.parent, t.tokenId))
    ensures Persists(d, AddChild(d[t.tokenId := t], t.parent, t.tokenId))
  {
    var d' := AddChild(d[t.tokenId := t], t.parent, t.tokenId);
    forall x | x in d' ensures Narrow(d', x) {
      if x != t.tokenId { assert Narrow(d, x); }
    }
  }

  lemma MintKeepsIndex(f: Forest, t: Token)
    requires Indexed(f) && t.tokenId !in f.tokens && t.tokenId !in f.roots && t.children == []
    requires t.parent in f.tokens || t.parent in f.roots
    ensures Indexed(Plant(f, t))
  {
    var f' := Plant(f, t);
    forall x | x in f'.tokens ensures Placed(f', x) {
      if x != t.tokenId { assert Placed(f, x); }
    }
  }

  lemma NoOrphans(f: Forest, id: nat)
    requires Indexed(f) && id !in f.tokens && id !in f.roots
    ensures forall x | x in f.tokens :: f.tokens[x].parent != id
  {
    forall x | x in f.tokens ensures f.tokens[x].parent != id {
      assert Placed(f, x);
    }
  }

  // A token that fits below its parent.
  predicate Fits(f: Forest, t: Token) {
    && t.tokenId !in f.tokens && t.tokenId !in f.roots && t.children == [] && 1 <= t.depth <= MAX_DEPTH
    && (if t.parent in f.tokens
        then && f.tokens[t.parent].depth + 1 == t.depth && t.expiration <= f.tokens[t.parent].expiration
             && !f.tokens[t.parent].revoked
        else t.parent in f.roots && t.depth == 1)
  }

  lemma PlantKeepsForest(f: Forest, t: Token)
    requires ForestOk(f) && Fits(f, t)
    ensures ForestOk(Plant(f, t)) && Persists(f.tokens, Plant(f, t).tokens)
  {
    NoOrphans(f, t.tokenId);
    MintKeepsShape(f.tokens, t);
    MintKeepsNarrowing(f.tokens, t);
    MintKeepsIndex(f, t);
  }

  // The record that a mint plants.
  function Minted(f: Forest, now: U64, q: Request): Token
    requires ParentOf(f, q.parent).Some?
  {
    var (root, depth) := ParentOf(f, q.parent).value;
    NewToken(q, now, root, depth)
  }

  lemma MintPlants(f: Forest, now: U64, q: Request)
    requires Fresh(f, Call(now, MintOp(q))) && Mint(f, now, q).Ok?
    ensures ParentOf(f, q.parent).Some? && Fits(f, Minted(f, now, q))
    ensures Mint(f, now, q).value == Plant(f, Minted(f, now, q))
  {
  }

  lemma MintKeepsForest(f: Forest, now: U64, q: Request)
    requires ForestOk(f) && Fresh(f, Call(now, MintOp(q)))
    ensures var r := Mint(f, now, q); r.Ok? ==> ForestOk(r.value) && Persists(f.tokens, r.value.tokens)
  {
    if Mint(f, now, q).Ok? {
      MintPlants(f, now, q);
      PlantKeepsForest(f, Minted(f, now, q));
    }
  }

  // Planting touches the new id and its parent's list only.
  lemma PlantExact(f: Forest, t: Token)
    requires t.tokenId !in f.tokens && t.parent != t.tokenId
    ensures var d' := Plant(f, t).tokens;
            && d'.Keys == f.tokens.Keys + {t.tokenId} && d'[t.tokenId] == t
            && (t.parent in f.tokens ==>
                  d'[t.parent] == f.tokens[t.parent].(children := f.tokens[t.parent].children + [t.tokenId]))
            && (forall x | x in f.tokens && x != t.parent :: d'[x] == f.tokens[x])
  {
  }

  /** Which parent and request a mint accepts, and its answer to the others, derived parents first. */
  lemma MintDecided(f: Forest, now: U64, q: Request)
    requires q.parent in f.tokens || q.parent in f.roots
    ensures var derived := q.parent in f.tokens;
            var revoked := if derived then f.tokens[q.parent].revoked else f.roots[q.parent].revoked;
            var expiration := if derived then f.tokens[q.parent].expiration else f.roots[q.parent].expiration;
            var open := if derived then f.tokens[q.parent].transferable else f.roots[q.parent].transferable;
            var deep := derived && f.tokens[q.parent].depth >= 10;
            var unnamed := q.zone != EntireProperty && q.zone.name == "";
            var r := Mint(f, now, q);
            && (r == Err(ParentTokenRevoked) <==> revoked)
            && (r == Err(ParentTokenExpired) <==> !revoked && expiration < now)
            && (r == Err(UnauthorizedSublease) <==> !revoked && now <= expiration && !open)
            && (r == Err(HierarchyDepthExceeded) <==> !revoked && now <= expiration && open && deep)
            && (r == Err(InvalidSpatialZone) <==> !revoked && now <= expiration && open && !deep && unnamed)
            && (r.Ok? <==>
                && !revoked && now <= expiration && open && !deep && !unnamed
                && (q.expiration.Some? ==> now <= q.expiration.value))
  {
  }

  lemma NoParent(f: Forest, now: U64, q: Request)
    requires q.parent !in f.tokens && q.parent !in f.roots
    ensures Mint(f, now, q) == Err(ParentTokenNotFound)
  {
  }

  // A derived token as a mint makes it, below a parent that ends at the given time.
  predicate Granted(t: Token, q: Request, now: U64, lease: U64, parentEnds: U64, parentDepth: nat) {
    && t.tokenId == DerivedId(q.parent, now) && t.parent == q.parent && t.rootLease == lease
    && t.sublessee == q.sublessee && t.zone == q.zone && t.mintedAt == now && t.depth == parentDepth + 1
    && t.transferable == q.transferable && t.transferCount == 0
    && !t.revoked && t.revokedAt == None && t.reason == None && t.children == []
    && t.expiration <= parentEnds && (q.expiration.Some? ==> t.expiration <= q.expiration.value)
    && (t.expiration == parentEnds || q.expiration == Some(t.expiration))
  }

  /**
   What a mint adds: one valid token, a level below its parent, held by the requester, valid as long
   as asked for and as its parent; every other token keeps all but its list of children.
   */
  lemma MintExact(f: Forest, now: U64, q: Request)
    requires Fresh(f, Call(now, MintOp(q))) && Mint(f, now, q).Ok?
    ensures q.parent in f.tokens || q.parent in f.roots
    ensures var f', id := Mint(f, now, q).value, DerivedId(q.parent, now);
            var d' := f'.tokens;
            && d'.Keys == f.tokens.Keys + {id} && ValidAt(d'[id], now)
            && (if q.parent in f.tokens
                then var p := f.tokens[q.parent];
                     && Granted(d'[id], q, now, p.rootLease, p.expiration, p.depth) && ValidAt(p, now)
                     && d'[q.parent] == p.(children := p.children + [id])
                else var p := f.roots[q.parent];
                     Granted(d'[id], q, now, p.leaseId, p.expiration, 0) && !p.revoked)
            && (forall x | x in f.tokens && x != q.parent :: d'[x] == f.tokens[x])
            && f'.roots == f.roots && f'.childIndex.Keys == f.childIndex.Keys + {q.parent}
            && ChildrenOf(f', q.parent) == ChildrenOf(f, q.parent) + [id]
            && (forall x | x in f.childIndex && x != q.parent :: f'.childIndex[x] == f.childIndex[x])
  {
    MintPlants(f, now, q);
    PlantExact(f, Minted(f, now, q));
  }

  /** A burn marks exactly what descends from its root with time and reason, and changes nothing else. */
  lemma BurnExact(f: Forest, now: U64, id: nat, reason: Reason)
    ensures var r := Burn(f, now, id, reason);
            && (r == Err(ParentTokenNotFound) <==> id !in f.tokens) && (r.Ok? <==> id in f.tokens)
            && (r.Ok? ==>
                  && r.value.tokens.Keys == f.tokens.Keys
                  && r.value.roots == f.roots && r.value.childIndex == f.childIndex
                  && (forall x | x in f.tokens && !Descends(f.tokens, x, id) :: r.value.tokens[x] == f.tokens[x])
                  && (forall x | x in f.tokens && Descends(f.tokens, x, id) ::
                        r.value.tokens[x] ==
                        f.tokens[x].(revoked := true, revokedAt := Some(now), reason := Some(reason))))
  {
  }

  // ---- Changes that leave the shape alone ----

  lemma SameShapeKeepsIndex(f: Forest, d': Table)
    requires Indexed(f) && SameShape(f.tokens, d')
    ensures Indexed(f.(tokens := d'))
  {
    var f' := f.(tokens := d');
    forall x | x in d' ensures Placed(f', x) {
      assert Placed(f, x) && SamePlace(f.tokens[x], d'[x]);
    }
  }

  lemma SameShapeKeepsForest(f: Forest, d': Table)
    requires ForestOk(f) && SameShape(f.tokens, d') && Narrowing(d')
    ensures ForestOk(f.(tokens := d'))
  {
    SameShapeKeepsShape(f.tokens, d');
    SameShapeKeepsIndex(f, d');
  }

  lemma BurnKeepsNarrowing(d: Table, id: nat, now: U64, reason: Reason)
    requires Shape(d) && Narrowing(d)
    ensures Narrowing(RevokeAll(d, Subtree(d, id), now, reason))
    ensures Persists(d, RevokeAll(d, Subtree(d, id), now, reason))
  {
    var d' := RevokeAll(d, Subtree(d, id), now, reason);
    forall x | x in d' ensures Narrow(d', x) {
      assert Linked(d, x) && Narrow(d, x);
    }
  }

  lemma BurnKeepsForest(f: Forest, now: U64, id: nat, reason: Reason)
    requires ForestOk(f)
    ensures var r := Burn(f, now, id, reason); r.Ok? ==> ForestOk(r.value) && Persists(f.tokens, r.value.tokens)
  {
    var s := Subtree(f.tokens, id);
    RevokeAllShape(f.tokens, s, now, reason);
    BurnKeepsNarrowing(f.tokens, id, now, reason);
    SameShapeKeepsForest(f, RevokeAll(f.tokens, s, now, reason));
  }

  lemma HolderChangeKeepsNarrowing(d: Table, id: nat, t': Token)
    requires Narrowing(d) && id in d && SamePlace(d[id], t') && t'.revoked == d[id].revoked
    ensures SameShape(d, d[id := t']) && Narrowing(d[id := t']) && Persists(d, d[id := t'])
  {
    var d' := d[id := t'];
    forall x | x in d' ensures Narrow(d', x) {
      assert Narrow(d, x);
    }
  }

  lemma HolderChangeKeepsForest(f: Forest, id: nat, t': Token)
    requires ForestOk(f) && id in f.tokens && SamePlace(f.tokens[id], t') && t'.revoked == f.tokens[id].revoked
    ensures ForestOk(f.(tokens := f.tokens[id := t'])) && Persists(f.tokens, f.tokens[id := t'])
  {
    HolderChangeKeepsNarrowing(f.tokens, id, t');
    SameShapeKeepsForest(f, f.tokens[id := t']);
  }

  // The record after an accepted transfer.
  function Transferred(t: Token, to: Address): Token
    requires FitsU32(t.transferCount + 1)
  {
    t.(sublessee := to, transferCount := t.transferCount + 1)
  }

  /** Only the holder hands over a valid, transferable token; nothing but its holder and count changes. */
  lemma TransferExact(f: Forest, now: U64, id: nat, from: Address, to: Address)
    ensures var r := Transfer(f, now, id, from, to);
            && (r == Err(ParentTokenNotFound) <==> id !in f.tokens)
            && (id in f.tokens ==>
                  var t := f.tokens[id];
                  && (r == Err(ParentTokenRevoked) <==> t.transferable && t.revoked)
                  && (r == Err(ParentTokenExpired) <==> t.transferable && !t.revoked && t.expiration < now)
                  && (r == Err(UnauthorizedSublease) <==>
                      !t.transferable || (ValidAt(t, now) && t.sublessee != from))
                  && (r.Ok? <==>
                      t.transferable && ValidAt(t, now) && t.sublessee == from && FitsU32(t.transferCount + 1))
                  && (r.Ok? ==>
                        var t' := r.value.tokens[id];
                        && t' == Transferred(t, to) && t'.sublessee == to
                        && t'.transferCount == t.transferCount as int + 1
                        && t'.(sublessee := t.sublessee, transferCount := t.transferCount) == t
                        && r.value == f.(tokens := f.tokens[id := t'])))
  {
  }

  lemma TransferKeepsForest(f: Forest, now: U64, id: nat, from: Address, to: Address)
    requires ForestOk(f)
    ensures var r := Transfer(f, now, id, from, to);
            r.Ok? ==> ForestOk(r.value) && Persists(f.tokens, r.value.tokens)
  {
    if Transfer(f, now, id, from, to).Ok? {
      TransferExact(f, now, id, from, to);
      HolderChangeKeepsForest(f, id, Transferred(f.tokens[id], to));
    }
  }

  lemma RootKeepsForest(f: Forest, id: nat, root: Root)
    requires ForestOk(f) && id !in f.tokens
    ensures ForestOk(f.(roots := f.roots[id := root]))
  {
    var f' := f.(roots := f.roots[id := root]);
    forall x | x in f'.tokens ensures Placed(f', x) {
      assert Placed(f, x);
    }
  }

  lemma StepKeepsForest(f: Forest, c: Call)
    requires ForestOk(f) && Fresh(f, c)
    ensures ForestOk(Apply(f, c)) && Persists(f.tokens, Apply(f, c).tokens)
  {
    match c.op
    case MintOp(q) => MintKeepsForest(f, c.now, q);
    case TransferOp(id, from, to) => TransferKeepsForest(f, c.now, id, from, to);
    case BurnOp(id, reason) => BurnKeepsForest(f, c.now, id, reason);
    case RootOp(id, root) => RootKeepsForest(f, id, root);
  }

  lemma {:induction false} RunKeepsForest(f: Forest, calls: seq<Call>)
    requires ForestOk(f) && FreshRun(f, calls)
    ensures ForestOk(Run(f, calls)) && Persists(f.tokens, Run(f, calls).tokens)
    decreases |calls|
  {
    if calls == [] {
    } else {
      StepKeepsForest(f, calls[0]);
      RunKeepsForest(Apply(f, calls[0]), calls[1..]);
    }
  }

  /** A valid token vouches for every derived token above it, at every moment. */
  lemma {:induction false} ValidityFlowsUp(f: Forest, x: nat, a: nat, now: U64)
    requires ForestOk(f) && Descends(f.tokens, x, a) && ValidAt(f.tokens[x], now)
    ensures ValidAt(f.tokens[a], now)
    decreases f.tokens[x].depth
  {
    if x == a {
    } else {
      assert Narrow(f.tokens, x);
      ValidityFlowsUp(f, f.tokens[x].parent, a, now);
    }
  }

  /**
   A burned hierarchy is dead for good: after any later run nothing below its root is valid, be it a
   token that was burned or one that a later call tried to add.
   */
  lemma BurnedForGood(f: Forest, now: U64, id: nat, reason: Reason, calls: seq<Call>, x: nat, later: U64)
    requires ForestOk(f) && id in f.tokens
    requires var burned := Burn(f, now, id, reason).value; FreshRun(burned, calls)
    requires Descends(Run(Burn(f, now, id, reason).value, calls).tokens, x, id)
    ensures !ValidAt(Run(Burn(f, now, id, reason).value, calls).tokens[x], later)
  {
    var burned := Burn(f, now, id, reason).value;
    BurnKeepsForest(f, now, id, reason);
    assert burned.tokens[id].revoked by { assert Descends(f.tokens, id, id); }
    RunKeepsForest(burned, calls);
    if ValidAt(Run(burned, calls).tokens[x], later) {
      ValidityFlowsUp(Run(burned, calls), x, id, later);
      assert false;
    }
  }

  // ---- What revokes a token ----

  // Later forests keep tokens and roots.
  predicate Grows(f: Forest, f': Forest) {
    ForestOk(f) && ForestOk(f') && Persists(f.tokens, f'.tokens) && f.roots.Keys <= f'.roots.Keys
  }

  // The ancestors of a token never change, whatever is minted later.
  lemma {:induction false} AncestorsFixed(f: Forest, f': Forest, x: nat, a: nat)
    requires Grows(f, f') && x in f.tokens
    ensures Descends(f.tokens, x, a) <==> Descends(f'.tokens, x, a)
    decreases f.tokens[x].depth
  {
    assert Linked(f.tokens, x) && Linked(f'.tokens, x) && Placed(f, x);
    if x == a {
    } else if f.tokens[x].parent in f.tokens {
      AncestorsFixed(f, f', f.tokens[x].parent, a);
    } else {
      assert f.tokens[x].parent in f'.roots;
    }
  }

  // The call asks to burn the hierarchy of an ancestor of x, or of x itself.
  predicate BurnsAbove(d: Table, c: Call, x: nat) { c.op.BurnOp? && Descends(d, x, c.op.id) }

  lemma RootsGrow(f: Forest, c: Call)
    ensures f.roots.Keys <= Apply(f, c).roots.Keys
  {
  }

  lemma StepGrows(f: Forest, c: Call)
    requires ForestOk(f) && Fresh(f, c)
    ensures Grows(f, Apply(f, c))
  {
    StepKeepsForest(f, c);
    RootsGrow(f, c);
  }

  lemma MintRevokesNone(f: Forest, now: U64, q: Request, x: nat)
    requires DerivedId(q.parent, now) !in f.tokens && x in f.tokens && Mint(f, now, q).Ok?
    ensures var d' := Mint(f, now, q).value.tokens; x in d' && d'[x].revoked == f.tokens[x].revoked
  {
  }

  lemma BurnRevokes(d: Table, id: nat, now: U64, reason: Reason, x: nat)
    requires x in d
    ensures RevokeAll(d, Subtree(d, id), now, reason)[x].revoked <==> d[x].revoked || Descends(d, x, id)
  {
  }

  lemma StepRevokes(f: Forest, c: Call, x: nat)
    requires Fresh(f, c) && x in f.tokens
    ensures x in Apply(f, c).tokens
    ensures Apply(f, c).tokens[x].revoked <==> f.tokens[x].revoked || BurnsAbove(f.tokens, c, x)
  {
    match c.op
    case MintOp(q) =>
      if Mint(f, c.now, q).Ok? { MintRevokesNone(f, c.now, q, x); }
    case TransferOp(id, from, to) =>
    case BurnOp(id, reason) => BurnRevokes(f.tokens, id, c.now, reason, x);
    case RootOp(id, root) =>
  }

  predicate SomeBurnAbove(d: Table, calls: seq<Call>, x: nat) {
    exists i :: 0 <= i < |calls| && BurnsAbove(d, calls[i], x)
  }

  predicate SameAncestors(d: Table, d': Table, calls: seq<Call>, x: nat) {
    forall i | 0 <= i < |calls| :: BurnsAbove(d, calls[i], x) <==> BurnsAbove(d', calls[i], x)
  }

  lemma SomeBurnFirst(d: Table, d': Table, calls: seq<Call>, x: nat)
    requires calls != [] && SameAncestors(d, d', calls, x)
    ensures SomeBurnAbove(d, calls, x) <==> BurnsAbove(d, calls[0], x) || SomeBurnAbove(d', calls[1..], x)
  {
    var rest := calls[1..];
    if i :| 0 <= i < |calls| && BurnsAbove(d, calls[i], x) {
      assert i > 0 ==> calls[i] == rest[i - 1];
    }
    if i :| 0 <= i < |rest| && BurnsAbove(d', rest[i], x) {
      assert rest[i] == calls[i + 1];
    }
  }

  lemma GrowsSameAncestors(f: Forest, f': Forest, calls: seq<Call>, x: nat)
    requires Grows(f, f') && x in f.tokens
    ensures SameAncestors(f.tokens, f'.tokens, calls, x)
  {
    forall i | 0 <= i < |calls|
      ensures BurnsAbove(f.tokens, calls[i], x) <==> BurnsAbove(f'.tokens, calls[i], x)
    {
      if calls[i].op.BurnOp? {
        AncestorsFixed(f, f', x, calls[i].op.id);
      }
    }
  }

  /**
   A token is revoked after a run exactly if it was before or the run asks to burn the hierarchy of
   one of its ancestors or its own; nothing else revokes it, and its term never changes.
   */
  lemma {:induction false} RevokedExactly(f: Forest, calls: seq<Call>, x: nat)
    requires ForestOk(f) && FreshRun(f, calls) && x in f.tokens
    ensures x in Run(f, calls).tokens && Run(f, calls).tokens[x].expiration == f.tokens[x].expiration
    ensures Run(f, calls).tokens[x].revoked <==> f.tokens[x].revoked || SomeBurnAbove(f.tokens, calls, x)
    decreases |calls|
  {
    if calls == [] {
    } else {
      var f' := Apply(f, calls[0]);
      StepGrows(f, calls[0]);
      StepRevokes(f, calls[0], x);
      RevokedExactly(f', calls[1..], x);
      GrowsSameAncestors(f, f', calls, x);
      SomeBurnFirst(f.tokens, f'.tokens, calls, x);
    }
  }

  /**
   Revoking a root lessee token does not reach its sub-leases: no token changes, the hierarchy cannot
   be burned from the root, and a sub-lease stays valid as before, to the end of its term, under every
   later run that does not burn it from a derived token.
   */
  lemma RevokedRootKeepsSubleases(f: Forest, now: U64, id: nat, calls: seq<Call>, x: nat, later: U64)
    requires ForestOk(f) && id in f.roots && x in f.tokens
    requires FreshRun(Apply(f, Call(now, RootOp(id, f.roots[id].(revoked := true)))), calls)
    ensures var f' := Apply(f, Call(now, RootOp(id, f.roots[id].(revoked := true))));
            && f'.tokens == f.tokens && x in Run(f', calls).tokens
            && (forall reason :: Step(f', Call(now, BurnOp(id, reason))) == Err(ParentTokenNotFound))
            && (!SomeBurnAbove(f.tokens, calls, x) ==>
                  (ValidAt(Run(f', calls).tokens[x], later) <==> ValidAt(f.tokens[x], later)))
  {
    var f' := Apply(f, Call(now, RootOp(id, f.roots[id].(revoked := true))));
    RootKeepsForest(f, id, f.roots[id].(revoked := true));
    RevokedExactly(f', calls, x);
  }

  // A sub-lease minted at 10 under root 5; the root is revoked at 20, and the sub-lease valid until 100.
  lemma SubleaseOutlivesRoot()
    ensures var f := Forest(map[5 := Root(1, 100, true, false)], map[], map[]);
            var minted := Apply(f, Call(10, MintOp(Request(5, 9, EntireProperty, false, None))));
            var revoked := Apply(minted, Call(20, RootOp(5, Root(1, 100, true, true))));
            var id := DerivedId(5, 10);
            && id in revoked.tokens && ValidAt(revoked.tokens[id], 100)
            && Step(revoked, Call(20, BurnOp(5, LeaseTerminated))) == Err(ParentTokenNotFound)
  {
  }
}
