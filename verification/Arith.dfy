/** Machine integers, results and finite sums shared by the contract models. */
module Arith {

  // ---- Widths of the source's integer types ----

  predicate FitsI64(x: int) { -0x8000_0000_0000_0000 <= x < 0x8000_0000_0000_0000 }
  predicate FitsU64(x: int) { 0 <= x < 0x1_0000_0000_0000_0000 }
  predicate FitsU32(x: int) { 0 <= x < 0x1_0000_0000 }
  predicate FitsI128(x: int) {
    -0x8000_0000_0000_0000_0000_0000_0000_0000 <= x < 0x8000_0000_0000_0000_0000_0000_0000_0000
  }
  predicate FitsU128(x: int) { 0 <= x < 0x1_0000_0000_0000_0000_0000_0000_0000_0000 }

  type I64 = x: int | -0x8000_0000_0000_0000 <= x < 0x8000_0000_0000_0000
  type I128 = x: int |
      -0x8000_0000_0000_0000_0000_0000_0000_0000 <= x < 0x8000_0000_0000_0000_0000_0000_0000_0000
  type U64 = x: nat | x < 0x1_0000_0000_0000_0000
  type U32 = x: nat | x < 0x1_0000_0000

  const I128_MAX: I128 := 0x7FFF_FFFF_FFFF_FFFF_FFFF_FFFF_FFFF_FFFF

  // Addresses are only ever compared for equality.
  type Address = nat

  // ---- Results ----

  datatype Option<+T> = None | Some(value: T)

  datatype Result<+T, +E> = Ok(value: T) | Err(error: E) {
    predicate IsFailure() { Err? }
    function PropagateFailure<U>(): Result<U, E>
      requires Err?
    {
      Err(error)
    }
    function Extract(): T
      requires Ok?
    {
      value
    }
  }

  // ---- Operators that differ from Dafny's ----

  function Min(a: int, b: int): int { if a <= b then a else b }
  function Max(a: int, b: int): int { if a >= b then a else b }

  // u64::saturating_sub
  function SatSub(a: nat, b: nat): nat { if a >= b then a - b else 0 }

  // Division truncating toward zero.
  function TruncDiv(a: int, b: int): int
    requires b != 0
  {
    if a >= 0 then a / b else -((-a) / b)
  }

  // ---- Products and quotients ----

  lemma ScaleMonotone(k: int, a: int, b: int)
    requires k >= 0 && a <= b
    ensures k * a <= k * b
  {
  }

  lemma ScaleStrict(k: int, a: int, b: int)
    requires k >= 0 && a <= b
    ensures k > 0 ==> (k * a == k * b <==> a == b)
  {
  }

  // q is a / b rounded down, in terms of products only.
  predicate IsFloor(q: int, a: int, b: int) { b * q <= a < b * q + b }

  lemma FloorUnique(q: int, q': int, a: int, b: int)
    requires b > 0 && IsFloor(q, a, b) && IsFloor(q', a, b)
    ensures q == q'
  {
    if q < q' {
      ScaleMonotone(b, q + 1, q');
    } else if q' < q {
      ScaleMonotone(b, q' + 1, q);
    }
  }

  lemma DivisionExact(a: int, b: int)
    requires b > 0
    ensures a == b * (a / b) + a % b && 0 <= a % b < b
  {
  }

  lemma QuotientBounds(a: int, b: int)
    requires b > 0
    ensures b * (a / b) <= a < b * (a / b) + b
  {
    assert a == b * (a / b) + a % b;
  }

  lemma QuotientBelow(a: int, b: int, r: int)
    requires b > 0
    ensures a / b < r <==> a < b * r
  {
    var q := a / b;
    QuotientBounds(a, b);
    assert q < r ==> b * (q + 1) <= b * r;
    assert q >= r ==> b * q >= b * r;
  }

  lemma DivMonotone(a: int, b: int, k: int)
    requires a <= b && k > 0
    ensures a / k <= b / k
  {
    QuotientBelow(b, k, b / k + 1);
    QuotientBelow(a, k, b / k + 1);
  }

  lemma DivisionUnique(x: int, k: int, q: int, r: int)
    requires k > 0 && x == k * q + r && 0 <= r < k
    ensures x / k == q && x % k == r
  {
    var q' := x / k;
    assert k * (q - q') == x % k - r;
    assert q - q' >= 1 ==> k * (q - q') >= k;
    assert q - q' <= -1 ==> k * (q - q') <= -k;
  }

  // ---- Sums over maps keyed by small numbers ----

  function SumBelow<V>(m: map<nat, V>, f: V -> int, n: nat): int {
    if n == 0 then 0
    else SumBelow(m, f, n - 1) + if n - 1 in m then f(m[n - 1]) else 0
  }

  lemma {:induction false} SumBelowAgree<V>(m: map<nat, V>, m': map<nat, V>, f: V -> int, n: nat)
    requires forall k: nat | k < n :: (k in m <==> k in m') && (k in m ==> f(m[k]) == f(m'[k]))
    ensures SumBelow(m, f, n) == SumBelow(m', f, n)
  {
    if n == 0 {
    } else {
      SumBelowAgree(m, m', f, n - 1);
    }
  }

  lemma {:induction false} SumBelowUpdate<V>(m: map<nat, V>, f: V -> int, n: nat, k: nat, v: V)
    requires k < n
    ensures SumBelow(m[k := v], f, n) ==
            SumBelow(m, f, n) - (if k in m then f(m[k]) else 0) + f(v)
  {
    if k == n - 1 {
      SumBelowAgree(m, m[k := v], f, k);
    } else {
      SumBelowUpdate(m, f, n - 1, k, v);
    }
  }

  // If f dominates g pointwise, the difference of the sums is at least the difference at any key.
  lemma {:induction false} SumBelowDominates<V>(m: map<nat, V>, f: V -> int, g: V -> int, n: nat, k: nat)
    requires forall j: nat | j in m :: g(m[j]) <= f(m[j])
    ensures SumBelow(m, g, n) <= SumBelow(m, f, n)
    ensures k < n && k in m ==> f(m[k]) - g(m[k]) <= SumBelow(m, f, n) - SumBelow(m, g, n)
  {
    if n == 0 {
    } else {
      SumBelowDominates(m, f, g, n - 1, k);
    }
  }

  // ---- Sums over sequences ----

  function SumBy<T>(s: seq<T>, f: T -> int): int {
    if s == [] then 0 else f(s[0]) + SumBy(s[1..], f)
  }

  lemma {:induction false} SumByAppend<T>(s: seq<T>, t: seq<T>, f: T -> int)
    ensures SumBy(s + t, f) == SumBy(s, f) + SumBy(t, f)
  {
    if s == [] {
      assert s + t == t;
    } else {
      assert (s + t)[1..] == s[1..] + t;
      SumByAppend(s[1..], t, f);
    }
  }

  lemma {:induction false} SumByRemoveAt<T>(s: seq<T>, f: T -> int, i: nat)
    requires i < |s|
    ensures SumBy(s, f) == f(s[i]) + SumBy(s[..i] + s[i + 1..], f)
  {
    assert s == s[..i] + ([s[i]] + s[i + 1..]);
    SumByAppend(s[..i], [s[i]] + s[i + 1..], f);
    SumByAppend(s[..i], s[i + 1..], f);
  }

  // A sum depends only on the multiset of its terms.
  lemma {:induction false} SumByPermutation<T>(s: seq<T>, t: seq<T>, f: T -> int)
    requires multiset(s) == multiset(t)
    ensures SumBy(s, f) == SumBy(t, f)
    decreases |s|
  {
    if s == [] {
      assert |multiset(t)| == 0;
    } else {
      assert s[0] in multiset(t);
      var i :| 0 <= i < |t| && t[i] == s[0];
      RemoveMatching(s, t, i);
      SumByPermutation(s[1..], t[..i] + t[i + 1..], f);
      SumByRemoveAt(t, f, i);
    }
  }

  lemma RemoveMatching<T>(s: seq<T>, t: seq<T>, i: nat)
    requires s != [] && i < |t| && t[i] == s[0] && multiset(s) == multiset(t)
    ensures multiset(s[1..]) == multiset(t[..i] + t[i + 1..])
  {
    assert s == [s[0]] + s[1..];
    assert t == t[..i] + [t[i]] + t[i + 1..];
    assert multiset(s[1..]) == multiset(s) - multiset{s[0]};
    assert multiset(t[..i] + t[i + 1..]) == multiset(t) - multiset{t[i]};
  }

  lemma {:induction false} SumByNonNegative<T>(s: seq<T>, f: T -> int)
    requires forall i | 0 <= i < |s| :: f(s[i]) >= 0
    ensures SumBy(s, f) >= 0
  {
    if s == [] {
    } else {
      SumByNonNegative(s[1..], f);
    }
  }

  // ---- Index lists ----

  predicate NoDuplicates<T(==)>(s: seq<T>) {
    forall i, j | 0 <= i < j < |s| :: s[i] != s[j]
  }

  // Vec::retain(|id| id != x)
  function Without<T(==)>(s: seq<T>, x: T): seq<T> {
    if s == [] then []
    else (if s[0] == x then [] else [s[0]]) + Without(s[1..], x)
  }

  lemma {:induction false} WithoutCounts<T>(s: seq<T>, x: T)
    ensures multiset(Without(s, x)) == multiset(s)[x := 0]
  {
    if s == [] {
    } else {
      assert s == [s[0]] + s[1..];
      WithoutCounts(s[1..], x);
    }
  }

  type Lists = map<Address, seq<nat>>

  function ListOf(h: Lists, a: Address): seq<nat> { if a in h then h[a] else [] }

  // How often token x stands in the list of a.
  function Count(h: Lists, a: Address, x: nat): nat { multiset(ListOf(h, a))[x] }

  // push_back onto one list
  function Push(h: Lists, a: Address, x: nat): Lists { h[a := ListOf(h, a) + [x]] }

  // Retain the others in the old owner's list, then push onto the new owner's, read after that.
  function Move(h: Lists, x: nat, from: Address, to: Address): Lists {
    Push(h[from := Without(ListOf(h, from), x)], to, x)
  }

  lemma PushCounts(h: Lists, a: Address, x: nat, b: Address, y: nat)
    ensures Count(Push(h, a, x), b, y) == Count(h, b, y) + (if b == a && y == x then 1 else 0)
  {
    assert multiset(ListOf(h, a) + [x]) == multiset(ListOf(h, a)) + multiset{x};
  }

  lemma MoveCounts(h: Lists, x: nat, from: Address, to: Address, b: Address, y: nat)
    ensures Count(Move(h, x, from, to), b, y) ==
            (if y == x && b == from then 0 else Count(h, b, y)) + (if y == x && b == to then 1 else 0)
  {
    WithoutCounts(ListOf(h, from), x);
    PushCounts(h[from := Without(ListOf(h, from), x)], to, x, b, y);
  }

  // Every list holds all tokens but x as it did.
  ghost predicate ListsMove(h: Lists, h': Lists, x: nat) {
    forall a: Address, y: nat | y != x :: Count(h', a, y) == Count(h, a, y)
  }

  lemma ListsMoveTwice(h: Lists, h': Lists, h'': Lists, x: nat)
    requires ListsMove(h, h', x) && ListsMove(h', h'', x)
    ensures ListsMove(h, h'', x)
  {
  }

  lemma PushListsMove(h: Lists, a: Address, x: nat)
    ensures ListsMove(h, Push(h, a, x), x) && Count(Push(h, a, x), a, x) == Count(h, a, x) + 1
  {
    forall b: Address, y: nat | y != x ensures Count(Push(h, a, x), b, y) == Count(h, b, y) {
      PushCounts(h, a, x, b, y);
    }
    PushCounts(h, a, x, a, x);
  }

  lemma MoveListsMove(h: Lists, x: nat, from: Address, to: Address)
    ensures ListsMove(h, Move(h, x, from, to), x)
    ensures Count(Move(h, x, from, to), to, x) == 1 + (if from == to then 0 else Count(h, to, x))
    ensures from != to ==> Count(Move(h, x, from, to), from, x) == 0
  {
    forall a: Address, y: nat | y != x ensures Count(Move(h, x, from, to), a, y) == Count(h, a, y) {
      MoveCounts(h, x, from, to, a, y);
    }
    MoveCounts(h, x, from, to, to, x);
    MoveCounts(h, x, from, to, from, x);
  }

  // ---- Token identifiers ----

  // (lease_id as u128) << 64 | timestamp: the two halves do not overlap.
  function TokenId(leaseId: U64, timestamp: U64): (id: nat)
    ensures id / 0x1_0000_0000_0000_0000 == leaseId && id % 0x1_0000_0000_0000_0000 == timestamp
    ensures FitsU128(id)
  {
    leaseId * 0x1_0000_0000_0000_0000 + timestamp
  }
}
