/**
 Derived access tokens (contracts/leaseflow_contracts/src/derived_access_token.rs): the forest of
 sub-leases that minting builds, and what burning a hierarchy does to it.
 */
module SubleaseForest {
  import opened Arith

  datatype Reason = LeaseTerminated | LeaseExpired | LeaseDisputed | OtherReason
  datatype Zone = EntireProperty | SpecificRoom(name: string) | ZoneArea(name: string) | CustomArea(name: string)

  datatype Token = Token(
    tokenId: nat, parent: nat, rootLease: U64, sublessee: Address, zone: Zone, expiration: U64, mintedAt: U64,
    depth: nat, transferable: bool, transferCount: U32,
    revoked: bool, revokedAt: Option<U64>, reason: Option<Reason>, children: seq<nat>)

  // What the lessee-token table says of a root.
  datatype Root = Root(leaseId: U64, expiration: U64, transferable: bool, revoked: bool)

  type Table = map<nat, Token>

  datatype Forest = Forest(roots: map<nat, Root>, tokens: Table, childIndex: map<nat, seq<nat>>)

  datatype Error =
    | ParentTokenNotFound | ParentTokenExpired | ParentTokenRevoked | HierarchyDepthExceeded
    | UnauthorizedSublease | InvalidSpatialZone
    | HostAbort // a subtraction or a counter overflowed

  const MAX_DEPTH := 10

  // ---- Minting ----

  datatype Request = Request(parent: nat, sublessee: Address, zone: Zone, transferable: bool, expiration: Option<U64>)

  // (parent << 64) | timestamp in 128 bits: the high half of the parent's id is shifted out.
  function DerivedId(parent: nat, timestamp: U64): nat {
    parent % 0x1_0000_0000_0000_0000 * 0x1_0000_0000_0000_0000 + timestamp
  }

  // A parent seen as a root; a derived token takes precedence. Roots have depth 0.
  function ParentOf(f: Forest, id: nat): Option<(Root, nat)> {
    if id in f.tokens then
      var t := f.tokens[id];
      Some((Root(t.rootLease, t.expiration, t.transferable, t.revoked), t.depth))
    else if id in f.roots then Some((f.roots[id], 0))
    else None
  }

  predicate ValidZone(z: Zone) { z.EntireProperty? || z.name != "" }

  function ChildrenOf(f: Forest, id: nat): seq<nat> {
    if id in f.childIndex then f.childIndex[id] else []
  }

  // The new token: never valid past its parent.
  function NewToken(q: Request, now: U64, root: Root, depth: nat): Token {
    var expiration := Min(if q.expiration.Some? then q.expiration.value else root.expiration, root.expiration);
    Token(DerivedId(q.parent, now), q.parent, root.leaseId, q.sublessee, q.zone, expiration, now, depth + 1,
          q.transferable, 0, false, None, None, [])
  }

  function Plant(f: Forest, t: Token): Forest {
    f.(tokens := AddChild(f.tokens[t.tokenId := t], t.parent, t.tokenId),
       childIndex := f.childIndex[t.parent := ChildrenOf(f, t.parent) + [t.tokenId]])
  }

  // mint_derived_access_token; an expiration already past makes the storage call abort.
  function Mint(f: Forest, now: U64, q: Request): Result<Forest, Error> {
    var p := ParentOf(f, q.parent);
    if p.None? then Err(ParentTokenNotFound)
    else
      var (root, depth) := p.value;
      if root.revoked then Err(ParentTokenRevoked)
      else if now > root.expiration then Err(ParentTokenExpired)
      else if !root.transferable then Err(UnauthorizedSublease)
      else if depth + 1 > MAX_DEPTH then Err(HierarchyDepthExceeded)
      else if !ValidZone(q.zone) then Err(InvalidSpatialZone)
      else if NewToken(q, now, root, depth).expiration < now then Err(HostAbort)
      else Ok(Plant(f, NewToken(q, now, root, depth)))
  }

  // add_child_to_parent, on the token table
  function AddChild(d: Table, parent: nat, id: nat): Table {
    if parent in d then d[parent := d[parent].(children := d[parent].children + [id])] else d
  }

  // transfer_derived_token
  function Transfer(f: Forest, now: U64, id: nat, from: Address, to: Address): Result<Forest, Error> {
    if id !in f.tokens then Err(ParentTokenNotFound)
    else
      var t := f.tokens[id];
      if !t.transferable then Err(UnauthorizedSublease)
      else if t.revoked then Err(ParentTokenRevoked)
      else if now > t.expiration then Err(ParentTokenExpired)
      else if t.sublessee != from then Err(UnauthorizedSublease)
      else if !FitsU32(t.transferCount + 1) then Err(HostAbort)
      else Ok(f.(tokens := f.tokens[id := t.(sublessee := to, transferCount := t.transferCount + 1)]))
  }

  // ---- Ancestry, by parent pointers ----

  // x is a, or its parent descends from a.
  predicate Descends(d: Table, x: nat, a: nat)
    decreases if x in d then d[x].depth else 0
  {
    && x in d && a in d
    && (x == a || (d[x].parent in d && d[d[x].parent].depth < d[x].depth && Descends(d, d[x].parent, a)))
  }

  function Subtree(d: Table, a: nat): set<nat> { set x | x in d && Descends(d, x, a) }

  function Revoke(t: Token, now: U64, reason: Reason): Token {
    t.(revoked := true, revokedAt := Some(now), reason := Some(reason))
  }

  function RevokeAll(d: Table, s: set<nat>, now: U64, reason: Reason): Table {
    map x | x in d :: if x in s then Revoke(d[x], now, reason) else d[x]
  }

  // recursive_burn_hierarchy, as a specification: revoke exactly the subtree of the root.
  function Burn(f: Forest, now: U64, id: nat, reason: Reason): Result<Forest, Error> {
    if id !in f.tokens then Err(ParentTokenNotFound)
    else Ok(f.(tokens := RevokeAll(f.tokens, Subtree(f.tokens, id), now, reason)))
  }

  // ---- The shape of the forest ----

  // Child lists and parent pointers mirror each other.
  predicate Linked(d: Table, x: nat)
    requires x in d
  {
    && d[x].tokenId == x && 1 <= d[x].depth <= MAX_DEPTH
    && NoDuplicates(d[x].children)
    && (forall c | c in d[x].children :: c in d && d[c].parent == x)
    && (if d[x].parent in d
        then d[d[x].parent].depth + 1 == d[x].depth && x in d[d[x].parent].children
        else d[x].depth == 1)
  }

  predicate Shape(d: Table) { forall x | x in d :: Linked(d, x) }

  // Rights narrow downward: a child of a derived token expires no later, and is revoked with it.
  predicate Narrow(d: Table, x: nat)
    requires x in d
  {
    d[x].parent in d ==>
      && d[x].expiration <= d[d[x].parent].expiration
      && (d[d[x].parent].revoked ==> d[x].revoked)
  }

  predicate Narrowing(d: Table) { forall x | x in d :: Narrow(d, x) }

  // Every token has a parent in one of the tables, and the child index repeats the child lists.
  predicate Placed(f: Forest, x: nat)
    requires x in f.tokens
  {
    (f.tokens[x].parent in f.tokens || f.tokens[x].parent in f.roots) && ChildrenOf(f, x) == f.tokens[x].children
  }

  predicate Indexed(f: Forest) {
    && f.roots.Keys !! f.tokens.Keys
    && (forall x | x in f.tokens :: Placed(f, x))
    && (forall x | x in f.childIndex :: x in f.tokens || x in f.roots)
  }

  predicate ForestOk(f: Forest) { Shape(f.tokens) && Narrowing(f.tokens) && Indexed(f) }

  // Two tables that differ only in who holds a token and in what was revoked.
  predicate SamePlace(t: Token, t': Token) {
    && t'.tokenId == t.tokenId && t'.parent == t.parent && t'.depth == t.depth
    && t'.children == t.children && t'.expiration == t.expiration
  }

  predicate SameShape(d: Table, d': Table) {
    d.Keys == d'.Keys && forall x | x in d :: SamePlace(d[x], d'[x])
  }

  lemma SameShapeKeepsShape(d: Table, d': Table)
    requires SameShape(d, d') && Shape(d)
    ensures Shape(d')
  {
    forall x | x in d' ensures Linked(d', x) {
      assert Linked(d, x);
    }
  }

  lemma {:induction false} SameShapeDescends(d: Table, d': Table, x: nat, a: nat)
    requires SameShape(d, d')
    ensures Descends(d, x, a) <==> Descends(d', x, a)
    decreases if x in d then d[x].depth else 0
  {
    if x in d && d[x].parent in d && d[d[x].parent].depth < d[x].depth {
      SameShapeDescends(d, d', d[x].parent, a);
    }
  }

  lemma SameShapeSubtree(d: Table, d': Table, a: nat)
    requires SameShape(d, d')
    ensures Subtree(d, a) == Subtree(d', a)
  {
    forall x ensures Descends(d, x, a) <==> Descends(d', x, a) {
      SameShapeDescends(d, d', x, a);
    }
  }

  // ---- Subtrees ----

  lemma {:induction false} DescendsDepth(d: Table, x: nat, a: nat)
    requires Descends(d, x, a)
    ensures d[a].depth <= d[x].depth
    ensures d[a].depth == d[x].depth ==> x == a
    decreases d[x].depth
  {
    if x == a {
    } else {
      DescendsDepth(d, d[x].parent, a);
    }
  }

  lemma {:induction false} AncestorUnique(d: Table, x: nat, a: nat, b: nat)
    requires Descends(d, x, a) && Descends(d, x, b) && d[a].depth == d[b].depth
    ensures a == b
    decreases d[x].depth
  {
    DescendsDepth(d, x, a);
    DescendsDepth(d, x, b);
    if x != a && x != b {
      AncestorUnique(d, d[x].parent, a, b);
    }
  }

  // Going down one child list is the same as going up one parent pointer.
  lemma {:induction false} DescendsFromChild(d: Table, x: nat, a: nat)
    requires Shape(d) && Descends(d, x, a) && x != a
    ensures exists c :: c in d[a].children && Descends(d, x, c)
    decreases d[x].depth
  {
    var p := d[x].parent;
    assert Linked(d, x);
    if p == a {
      assert x in d[a].children && Descends(d, x, x);
    } else {
      DescendsFromChild(d, p, a);
      var c :| c in d[a].children && Descends(d, p, c);
      assert Linked(d, a);
      assert Descends(d, x, c);
    }
  }

  lemma {:induction false} DescendsThroughChild(d: Table, x: nat, c: nat, a: nat)
    requires Shape(d) && a in d && c in d[a].children && Descends(d, x, c)
    ensures Descends(d, x, a) && x != a
    decreases d[x].depth
  {
    assert Linked(d, a);
    assert Linked(d, c);
    DescendsDepth(d, x, c);
    if x == c {
      assert Descends(d, a, a);
    } else {
      DescendsThroughChild(d, d[x].parent, c, a);
    }
  }

  // The tokens below the first k children of a.
  function Below(d: Table, a: nat, k: nat): set<nat>
    requires a in d && k <= |d[a].children|
  {
    set x | x in d && exists j :: 0 <= j < k && Descends(d, x, d[a].children[j])
  }

  // Subtrees of two different children of a are disjoint.
  lemma SiblingsDisjoint(d: Table, a: nat, j: nat, k: nat, x: nat)
    requires Shape(d) && a in d && j < k < |d[a].children|
    ensures !(Descends(d, x, d[a].children[j]) && Descends(d, x, d[a].children[k]))
  {
    var c, c' := d[a].children[j], d[a].children[k];
    assert Linked(d, a);
    assert c in d[a].children && c' in d[a].children;
    assert Linked(d, c) && Linked(d, c');
    if Descends(d, x, c) && Descends(d, x, c') {
      AncestorUnique(d, x, c, c');
      assert false;
    }
  }

  lemma BelowStep(d: Table, a: nat, k: nat)
    requires Shape(d) && a in d && k < |d[a].children|
    ensures Below(d, a, k + 1) == Below(d, a, k) + Subtree(d, d[a].children[k])
    ensures Below(d, a, k) !! Subtree(d, d[a].children[k])
  {
    forall x | x in Below(d, a, k) ensures x !in Subtree(d, d[a].children[k]) {
      var j :| 0 <= j < k && Descends(d, x, d[a].children[j]);
      SiblingsDisjoint(d, a, j, k, x);
    }
  }

  lemma BelowAll(d: Table, a: nat)
    requires Shape(d) && a in d
    ensures Subtree(d, a) == Below(d, a, |d[a].children|) + {a}
    ensures a !in Below(d, a, |d[a].children|)
  {
    var cs := d[a].children;
    var below := Below(d, a, |cs|);
    assert Descends(d, a, a);
    forall x | x in Subtree(d, a) && x != a ensures x in below {
      DescendsFromChild(d, x, a);
      var c :| c in cs && Descends(d, x, c);
      var j :| 0 <= j < |cs| && cs[j] == c;
    }
    forall x | x in below ensures x in Subtree(d, a) && x != a {
      var j :| 0 <= j < |cs| && Descends(d, x, cs[j]);
      DescendsThroughChild(d, x, cs[j], a);
    }
  }

  lemma RevokeAllShape(d: Table, s: set<nat>, now: U64, reason: Reason)
    ensures SameShape(d, RevokeAll(d, s, now, reason))
  {
  }
}
