/** The hash ring as a value: positions, sorted lists, the clockwise walk, and the
    operations on a ring. The hash itself is a parameter: nothing depends on MD5. */
module Ring {
  import opened Collections

  const SPACE := 0x1_0000_0000_0000_0000

  type Hash = h: int | 0 <= h < SPACE

  /** What all rings of one cluster share. */
  datatype Layout = Layout(
    hashKey: string -> Hash,
    labelOf: (int, nat) -> string,  // the label of a physical node's i-th virtual node
    virtualNodes: nat
  )

  datatype RingState = RingState(
    ring: map<Hash, int>,      // position -> physical node
    sorted: seq<Hash>,         // the positions, for binary search
    nodes: set<int>            // the physical nodes
  )

  const EMPTY := RingState(map[], [], {})

  // ----- Labels and positions of virtual nodes -----

  function Position(l: Layout, node: int, i: nat): Hash {
    (l.hashKey)((l.labelOf)(node, i))
  }

  function Positions(l: Layout, node: int, count: nat): (r: seq<Hash>)
    ensures |r| == count && forall i :: 0 <= i < count ==> r[i] == Position(l, node, i)
  {
    seq(count, i requires 0 <= i => Position(l, node, i))
  }

  lemma PositionsStep(l: Layout, node: int, i: nat)
    ensures Positions(l, node, i + 1) == Positions(l, node, i) + [Position(l, node, i)]
  {
  }

  /** No two virtual nodes of these physical nodes share a position. */
  ghost predicate NoCollisions(l: Layout, nodes: set<int>) {
    forall n, m, i: nat, j: nat {:trigger Position(l, n, i), Position(l, m, j)} ::
      n in nodes && m in nodes && i < l.virtualNodes && j < l.virtualNodes && Position(l, n, i) == Position(l, m, j)
      ==> n == m && i == j
  }

  // ----- Sorted lists -----

  ghost predicate Ascending(q: seq<Hash>) {
    forall i, j :: 0 <= i < j < |q| ==> q[i] <= q[j]
  }

  ghost predicate StrictlyAscending(q: seq<Hash>) {
    forall i, j :: 0 <= i < j < |q| ==> q[i] < q[j]
  }

  /** The first index whose position is at or after the key's. */
  function LowerBound(q: seq<Hash>, k: Hash): (r: nat)
    requires Ascending(q)
    ensures r <= |q|
    ensures forall i :: 0 <= i < r ==> q[i] < k
    ensures forall i :: r <= i < |q| ==> k <= q[i]
  {
    if q == [] || k <= q[0] then 0 else 1 + LowerBound(q[1..], k)
  }

  function Insert(q: seq<Hash>, x: Hash): seq<Hash>
    requires Ascending(q)
  {
    var i := LowerBound(q, x);
    q[..i] + [x] + q[i..]
  }

  lemma InsertKeepsOrder(q: seq<Hash>, x: Hash)
    requires Ascending(q)
    ensures Ascending(Insert(q, x))
  {
    var i, r := LowerBound(q, x), Insert(q, x);
    forall a, b | 0 <= a < b < |r| ensures r[a] <= r[b] {
      assert a < i ==> r[a] == q[a];
      assert b > i ==> r[b] == q[b - 1];
    }
  }

  lemma InsertKeepsMembers(q: seq<Hash>, x: Hash)
    requires Ascending(q)
    ensures multiset(Insert(q, x)) == multiset(q) + multiset{x}
  {
    var i := LowerBound(q, x);
    assert q == q[..i] + q[i..];
  }

  /** What the sorting library returns. */
  function Sorted(q: seq<Hash>): (r: seq<Hash>)
    ensures Ascending(r) && multiset(r) == multiset(q)
  {
    if q == [] then []
    else
      var n := |q| - 1;
      InsertKeepsOrder(Sorted(q[..n]), q[n]);
      InsertKeepsMembers(Sorted(q[..n]), q[n]);
      assert q == q[..n] + [q[n]];
      Insert(Sorted(q[..n]), q[n])
  }

  ghost function Largest(s: set<Hash>): (x: Hash)
    requires s != {}
    ensures x in s && forall y :: y in s ==> y <= x
  {
    var x := Pick(s);
    if s == {x} then x
    else
      var t := s - {x};
      assert s == t + {x};
      var y := Largest(t);
      assert forall z :: z in s ==> z == x || z in t;
      if x < y then y else x
  }

  lemma ExtendAscending(q: seq<Hash>, x: Hash)
    requires StrictlyAscending(q) && forall y :: y in q ==> y < x
    ensures StrictlyAscending(q + [x]) && Elements(q + [x]) == Elements(q) + {x}
  {
    forall i, j | 0 <= i < j < |q| + 1 ensures (q + [x])[i] < (q + [x])[j] {
      assert q[i] in q;
    }
  }

  lemma AppendLargest(s: set<Hash>, x: Hash, rest: seq<Hash>)
    requires x in s && forall y :: y in s ==> y <= x
    requires StrictlyAscending(rest) && Elements(rest) == s - {x}
    ensures StrictlyAscending(rest + [x]) && Elements(rest + [x]) == s
  {
    forall y | y in rest ensures y < x {
      assert y in Elements(rest);
    }
    ExtendAscending(rest, x);
    assert s == s - {x} + {x};
  }

  /** The members of a set of positions in ascending order. */
  ghost function AscendingOf(s: set<Hash>): (r: seq<Hash>)
    ensures Ascending(r) && StrictlyAscending(r) && Elements(r) == s
  {
    if s == {} then []
    else
      var x := Largest(s);
      AppendLargest(s, x, AscendingOf(s - {x}));
      AscendingOf(s - {x}) + [x]
  }

  lemma TwicePresent(r: seq<Hash>, i: nat, j: nat)
    requires i < j < |r| && r[i] == r[j]
    ensures multiset(r)[r[i]] >= 2
  {
    assert r == r[..i] + [r[i]] + r[i + 1..j] + [r[j]] + r[j + 1..];
  }

  lemma SortedWithoutDuplicates(q: seq<Hash>)
    requires forall x :: x in q ==> multiset(q)[x] == 1
    ensures StrictlyAscending(Sorted(q))
  {
    var r := Sorted(q);
    SameMembers(r, q);
    forall i, j | 0 <= i < j < |r| ensures r[i] < r[j] {
      assert r[i] in Elements(r);
      if r[i] == r[j] {
        TwicePresent(r, i, j);
      }
    }
  }

  lemma {:induction false} StrictlyAscendingUnique(a: seq<Hash>, b: seq<Hash>)
    requires StrictlyAscending(a) && StrictlyAscending(b) && Elements(a) == Elements(b)
    ensures a == b
  {
    if a == [] {
      if b != [] {
        NonemptyHasMember(b);
      }
    } else {
      assert a[0] in Elements(b);
      assert b != [] && b[0] in Elements(a);
      assert a[0] == b[0];
      forall x ensures x in Elements(a[1..]) <==> x in Elements(b[1..]) {
        assert x in Elements(a[1..]) <==> x in Elements(a) && x != a[0];
        assert x in Elements(b[1..]) <==> x in Elements(b) && x != b[0];
      }
      StrictlyAscendingUnique(a[1..], b[1..]);
      assert a == [a[0]] + a[1..] && b == [b[0]] + b[1..];
    }
  }

  // ----- Adding and removing a physical node -----

  function Placed(l: Layout, ring: map<Hash, int>, node: int, count: nat): map<Hash, int> {
    if count == 0 then ring
    else Placed(l, ring, node, count - 1)[Position(l, node, count - 1) := node]
  }

  ghost function AfterAdd(l: Layout, s: RingState, node: int): RingState {
    if node in s.nodes then s
    else RingState(Placed(l, s.ring, node, l.virtualNodes),
                   Sorted(s.sorted + Positions(l, node, l.virtualNodes)),
                   s.nodes + {node})
  }

  ghost function AfterRemove(l: Layout, s: RingState, node: int): RingState {
    if node !in s.nodes then s
    else
      var ring := s.ring - Elements(Positions(l, node, l.virtualNodes));
      RingState(ring, AscendingOf(ring.Keys), s.nodes - {node})
  }

  datatype RingOp = Add(node: int) | Remove(node: int)

  ghost function Apply(l: Layout, s: RingState, op: RingOp): RingState {
    match op
    case Add(n) => AfterAdd(l, s, n)
    case Remove(n) => AfterRemove(l, s, n)
  }

  ghost function Run(l: Layout, ops: seq<RingOp>): RingState {
    if ops == [] then EMPTY else Apply(l, Run(l, ops[..|ops| - 1]), ops[|ops| - 1])
  }

  lemma RunAppend(l: Layout, ops: seq<RingOp>, op: RingOp)
    ensures Run(l, ops + [op]) == Apply(l, Run(l, ops), op)
  {
    assert (ops + [op])[..|ops|] == ops;
  }

  // ----- Looking a key up -----

  lemma LowerBoundUnique(q: seq<Hash>, k: Hash, at: nat)
    requires Ascending(q) && at <= |q|
    requires at > 0 ==> q[at - 1] < k
    requires at < |q| ==> k <= q[at]
    ensures at == LowerBound(q, k)
  {
  }

  /** A list read from an index on, wrapping around at its end. */
  function From<T>(q: seq<T>, start: nat): (r: seq<T>)
    requires start <= |q|
    ensures |r| == |q| && Elements(r) == Elements(q)
  {
    assert q == q[..start] + q[start..];
    q[start..] + q[..start]
  }

  lemma FromAt<T>(q: seq<T>, start: nat, i: nat)
    requires start < |q| && i < |q|
    ensures (start + i) % |q| < |q| && From(q, start)[i] == q[(start + i) % |q|]
  {
    WrapAround(start + i, |q|);
  }

  lemma WrapAround(a: nat, n: nat)
    requires a < 2 * n
    ensures a % n == if a < n then a else a - n
  {
  }

  /** All positions in the order a clockwise walk from the key meets them. */
  function Clockwise(q: seq<Hash>, k: Hash): (r: seq<Hash>)
    requires Ascending(q)
    ensures |r| == |q| && Elements(r) == Elements(q)
  {
    From(q, LowerBound(q, k))
  }

  function Owners(ring: map<Hash, int>, walk: seq<Hash>): (r: seq<int>)
    requires Elements(walk) <= ring.Keys
    ensures |r| == |walk| && forall i :: 0 <= i < |walk| ==> r[i] == ring[walk[i]]
  {
    seq(|walk|, i requires 0 <= i < |walk| => assert walk[i] in Elements(walk); ring[walk[i]])
  }

  /** Each value once, in the order of first occurrence. */
  function FirstOccurrences(w: seq<int>): (r: seq<int>)
    ensures Elements(r) == Elements(w)
    ensures Distinct(r)
  {
    if w == [] then []
    else
      var n := |w| - 1;
      assert w == w[..n] + [w[n]];
      var r := FirstOccurrences(w[..n]);
      assert w[n] in r <==> w[n] in Elements(r);
      assert Elements(w) == Elements(w[..n]) + {w[n]};
      if w[n] in r then r else
        assert Elements(r + [w[n]]) == Elements(r) + {w[n]};
        r + [w[n]]
  }

  function Min(a: int, b: int): int {
    if a < b then a else b
  }

  /** The physical nodes in the order a clockwise walk from the key first meets them. */
  function Preference(s: RingState, k: Hash): seq<int>
    requires RingInvariant(s)
  {
    FirstOccurrences(Owners(s.ring, Clockwise(s.sorted, k)))
  }

  function NodesFor(l: Layout, s: RingState, key: string, count: nat): seq<int>
    requires RingInvariant(s)
  {
    var order := Preference(s, (l.hashKey)(key));
    order[..Min(Min(count, |s.nodes|), |order|)]
  }

  lemma SameMembers<T>(a: seq<T>, b: seq<T>)
    requires multiset(a) == multiset(b)
    ensures Elements(a) == Elements(b)
  {
    forall x ensures x in a <==> x in b {
      assert x in a <==> x in multiset(a);
      assert x in b <==> x in multiset(b);
    }
  }

  // ----- The invariant that survives even hash collisions -----

  ghost predicate RingInvariant(s: RingState) {
    && Ascending(s.sorted)
    && Elements(s.sorted) == s.ring.Keys
    && forall h :: h in s.ring ==> s.ring[h] in s.nodes
  }

  ghost predicate LabelledAt(l: Layout, s: RingState, h: Hash)
    requires h in s.ring
  {
    h in Positions(l, s.ring[h], l.virtualNodes)
  }

  /** Every position belongs to one of the labels of the node it is assigned to. */
  ghost predicate Labelled(l: Layout, s: RingState) {
    forall h {:trigger LabelledAt(l, s, h)} :: h in s.ring ==> LabelledAt(l, s, h)
  }

  lemma {:induction false} PlacedRing(l: Layout, ring: map<Hash, int>, node: int, count: nat)
    ensures var r := Placed(l, ring, node, count);
            && r.Keys == ring.Keys + Elements(Positions(l, node, count))
            && forall h :: h in r ==> r[h] == if h in Positions(l, node, count) then node else ring[h]
  {
    if count > 0 {
      PlacedRing(l, ring, node, count - 1);
      PositionsStep(l, node, count - 1);
    }
  }

  lemma InvariantStep(l: Layout, s: RingState, op: RingOp)
    requires RingInvariant(s) && Labelled(l, s)
    ensures RingInvariant(Apply(l, s, op)) && Labelled(l, Apply(l, s, op))
  {
    assert forall h {:trigger s.ring[h]} :: h in s.ring ==> LabelledAt(l, s, h);
    match op {
      case Add(n) =>
        if n !in s.nodes {
          PlacedRing(l, s.ring, n, l.virtualNodes);
          var q := s.sorted + Positions(l, n, l.virtualNodes);
          SameMembers(Sorted(q), q);
          assert Elements(q) == Elements(s.sorted) + Elements(Positions(l, n, l.virtualNodes));
        }
      case Remove(n) =>
    }
  }

  /** After any additions and removals, colliding hashes or not: the list is sorted, holds
      exactly the ring's positions, and no position leads to a removed node. */
  lemma {:induction false} InvariantAlways(l: Layout, ops: seq<RingOp>)
    ensures RingInvariant(Run(l, ops)) && Labelled(l, Run(l, ops))
  {
    if ops != [] {
      InvariantAlways(l, ops[..|ops| - 1]);
      InvariantStep(l, Run(l, ops[..|ops| - 1]), ops[|ops| - 1]);
    }
  }

  lemma OwnersAreCurrent(s: RingState, walk: seq<Hash>)
    requires RingInvariant(s) && Elements(walk) <= s.ring.Keys
    ensures Elements(Owners(s.ring, walk)) <= s.nodes
  {
    var owners := Owners(s.ring, walk);
    forall n | n in owners ensures n in s.nodes {
      var a :| 0 <= a < |walk| && owners[a] == n;
      assert walk[a] in Elements(walk);
    }
  }

  /** Lookups only ever name current nodes, each at most once, and never more than asked for. */
  lemma NodesForAreCurrent(l: Layout, s: RingState, key: string, count: nat)
    requires RingInvariant(s)
    ensures var r := NodesFor(l, s, key, count);
            |r| <= count && Elements(r) <= s.nodes && Distinct(r)
  {
    var k := (l.hashKey)(key);
    OwnersAreCurrent(s, Clockwise(s.sorted, k));
    var order := Preference(s, k);
    assert forall n :: n in order ==> n in Elements(order);
  }
}
