/** What ring lookups mean: the nearest distinct nodes clockwise, independent of the
    history of the ring, and moving as little as possible when a node comes or goes. */
module RingTheorems {
  import opened Collections
  import opened Ring

  // ----- Without collisions the ring is a function of the set of nodes -----

  ghost predicate PlacedAt(l: Layout, s: RingState, n: int, i: nat) {
    Position(l, n, i) in s.ring && s.ring[Position(l, n, i)] == n
  }

  /** Exactly the labels of the current nodes are on the ring, each leading to its node. */
  ghost predicate Canonical(l: Layout, s: RingState) {
    && RingInvariant(s)
    && StrictlyAscending(s.sorted)
    && Labelled(l, s)
    && forall n, i: nat {:trigger PlacedAt(l, s, n, i)} :: n in s.nodes && i < l.virtualNodes ==> PlacedAt(l, s, n, i)
  }

  lemma {:induction false} DistinctOnce<T>(q: seq<T>, x: T)
    requires Distinct(q) && x in q
    ensures multiset(q)[x] == 1
  {
    var n := |q| - 1;
    assert q == q[..n] + [q[n]];
    if x in q[..n] {
      DistinctOnce(q[..n], x);
    }
  }

  lemma AddedPositionsAreNew(l: Layout, s: RingState, n: int, universe: set<int>)
    requires Canonical(l, s) && n !in s.nodes
    requires NoCollisions(l, universe) && s.nodes + {n} <= universe
    ensures Distinct(s.sorted + Positions(l, n, l.virtualNodes))
  {
    var added, v := Positions(l, n, l.virtualNodes), l.virtualNodes;
    forall i, j | 0 <= i < |s.sorted| && 0 <= j < |added| ensures s.sorted[i] != added[j] {
      var h := s.sorted[i];
      assert h in Elements(s.sorted) && LabelledAt(l, s, h);
      var a :| 0 <= a < v && Positions(l, s.ring[h], v)[a] == h;
      assert Position(l, s.ring[h], a) == h && added[j] == Position(l, n, j);
    }
    forall i, j | 0 <= i < j < |added| ensures added[i] != added[j] {
      assert added[i] == Position(l, n, i) && added[j] == Position(l, n, j);
    }
  }

  lemma CanonicalAdd(l: Layout, s: RingState, n: int, universe: set<int>)
    requires Canonical(l, s) && n !in s.nodes
    requires NoCollisions(l, universe) && s.nodes + {n} <= universe
    ensures Canonical(l, AfterAdd(l, s, n))
  {
    var v := l.virtualNodes;
    var q := s.sorted + Positions(l, n, v);
    InvariantStep(l, s, Add(n));
    PlacedRing(l, s.ring, n, v);
    AddedPositionsAreNew(l, s, n, universe);
    forall x | x in q ensures multiset(q)[x] == 1 {
      DistinctOnce(q, x);
    }
    SortedWithoutDuplicates(q);
    var t := AfterAdd(l, s, n);
    forall m, i: nat | m in t.nodes && i < v
      ensures PlacedAt(l, t, m, i)
    {
      if m == n {
        assert Positions(l, n, v)[i] == Position(l, n, i);
      } else {
        assert PlacedAt(l, s, m, i);
        forall j | 0 <= j < v ensures Positions(l, n, v)[j] != Position(l, m, i) {
          assert Positions(l, n, v)[j] == Position(l, n, j);
        }
      }
    }
  }

  lemma CanonicalRemove(l: Layout, s: RingState, n: int, universe: set<int>)
    requires Canonical(l, s) && n in s.nodes
    requires NoCollisions(l, universe) && s.nodes <= universe
    ensures Canonical(l, AfterRemove(l, s, n))
  {
    InvariantStep(l, s, Remove(n));
    var t := AfterRemove(l, s, n);
    forall m, i: nat | m in t.nodes && i < l.virtualNodes
      ensures PlacedAt(l, t, m, i)
    {
      assert PlacedAt(l, s, m, i);
    }
  }

  function NodesOf(ops: seq<RingOp>): set<int> {
    if ops == [] then {}
    else
      var before := NodesOf(ops[..|ops| - 1]);
      match ops[|ops| - 1]
      case Add(n) => before + {n}
      case Remove(n) => before - {n}
  }

  /** Every node a run ever mentions. */
  function Mentioned(ops: seq<RingOp>): set<int> {
    set op | op in ops :: op.node
  }

  lemma {:induction false} RunNodes(l: Layout, ops: seq<RingOp>)
    ensures Run(l, ops).nodes == NodesOf(ops)
  {
    if ops != [] {
      RunNodes(l, ops[..|ops| - 1]);
    }
  }

  lemma {:induction false} CanonicalAlways(l: Layout, ops: seq<RingOp>)
    requires NoCollisions(l, Mentioned(ops))
    ensures Canonical(l, Run(l, ops))
    ensures Run(l, ops).nodes == NodesOf(ops) <= Mentioned(ops)
  {
    if ops != [] {
      var prefix, op := ops[..|ops| - 1], ops[|ops| - 1];
      assert Mentioned(prefix) <= Mentioned(ops) && op.node in Mentioned(ops);
      CanonicalAlways(l, prefix);
      var s := Run(l, prefix);
      match op {
        case Add(n) =>
          if n !in s.nodes {
            CanonicalAdd(l, s, n, Mentioned(ops));
          } else {
            assert s.nodes + {n} == s.nodes;
          }
        case Remove(n) =>
          if n in s.nodes {
            CanonicalRemove(l, s, n, Mentioned(ops));
          } else {
            assert s.nodes - {n} == s.nodes;
          }
      }
    }
  }

  lemma CanonicalUnique(l: Layout, s: RingState, t: RingState)
    requires Canonical(l, s) && Canonical(l, t) && s.nodes == t.nodes
    ensures s == t
  {
    SameRing(l, s, t);
    SameRing(l, t, s);
    assert s.ring.Keys == t.ring.Keys;
    StrictlyAscendingUnique(s.sorted, t.sorted);
  }

  lemma SameRing(l: Layout, s: RingState, t: RingState)
    requires Canonical(l, s) && Canonical(l, t) && s.nodes == t.nodes
    ensures forall h :: h in s.ring ==> h in t.ring && t.ring[h] == s.ring[h]
  {
    forall h | h in s.ring ensures h in t.ring && t.ring[h] == s.ring[h] {
      var i := LabelAt(l, s, h);
      assert PlacedAt(l, t, s.ring[h], i);
    }
  }

  /** Two histories that leave the same physical nodes leave the same ring: the order of
      additions, repeated additions, and nodes that came and went leave no trace. */
  lemma HistoryIndependence(l: Layout, ops1: seq<RingOp>, ops2: seq<RingOp>)
    requires NoCollisions(l, Mentioned(ops1)) && NoCollisions(l, Mentioned(ops2))
    ensures Run(l, ops1) == Run(l, ops2) <==> NodesOf(ops1) == NodesOf(ops2)
  {
    CanonicalAlways(l, ops1);
    CanonicalAlways(l, ops2);
    if NodesOf(ops1) == NodesOf(ops2) {
      CanonicalUnique(l, Run(l, ops1), Run(l, ops2));
    }
  }

  lemma RemoveAfterAdd(l: Layout, s: RingState, n: int)
    requires n !in s.nodes
    ensures var ring := s.ring - Elements(Positions(l, n, l.virtualNodes));
            AfterRemove(l, AfterAdd(l, s, n), n) == RingState(ring, AscendingOf(ring.Keys), s.nodes)
  {
    var labels := Elements(Positions(l, n, l.virtualNodes));
    PlacedRing(l, s.ring, n, l.virtualNodes);
    assert Placed(l, s.ring, n, l.virtualNodes) - labels == s.ring - labels;
    assert s.nodes + {n} - {n} == s.nodes;
  }

  /** In any reachable ring, removing a node that was just added gives back the very same
      ring if and only if no label of that node hits an occupied position and the list
      held no position twice; a collision loses the other node's position for good. */
  lemma RemoveUndoesAdd(l: Layout, s: RingState, n: int)
    requires RingInvariant(s) && n !in s.nodes
    ensures AfterRemove(l, AfterAdd(l, s, n), n) == s <==>
            Elements(Positions(l, n, l.virtualNodes)) !! s.ring.Keys && StrictlyAscending(s.sorted)
  {
    var labels := Elements(Positions(l, n, l.virtualNodes));
    RemoveAfterAdd(l, s, n);
    var ring := s.ring - labels;
    if labels !! s.ring.Keys && StrictlyAscending(s.sorted) {
      assert ring == s.ring;
      StrictlyAscendingUnique(AscendingOf(ring.Keys), s.sorted);
    }
    if ring == s.ring {
      assert s.ring.Keys - labels == s.ring.Keys;
    }
  }

  /** When all labels share one position h, adding and removing b takes a's only position off
      the ring, though a stays listed as a physical node. */
  lemma RoundTripLost(l: Layout, a: int, b: int, h: Hash)
    requires l.virtualNodes >= 1 && a != b && forall name :: (l.hashKey)(name) == h
    ensures var s, t := Run(l, [Add(a)]), Run(l, [Add(a)] + [Add(b)] + [Remove(b)]);
            s.ring.Keys == {h} && t.ring.Keys == {} && s.nodes == t.nodes == {a}
  {
    RoundTripRun(l, a, b);
    PositionLost(l, a, b, h);
  }

  lemma PositionLost(l: Layout, a: int, b: int, h: Hash)
    requires l.virtualNodes >= 1 && a != b && forall name :: (l.hashKey)(name) == h
    ensures var s := AfterAdd(l, EMPTY, a);
            var t := AfterRemove(l, AfterAdd(l, s, b), b);
            s.ring.Keys == {h} && t.ring.Keys == {} && s.nodes == t.nodes == {a}
  {
    FirstAdded(l, a);
    OnePosition(l, a, h);
    OnePosition(l, b, h);
    RingAfterRoundTrip(l, AfterAdd(l, EMPTY, a), b);
  }

  lemma FirstAdded(l: Layout, a: int)
    ensures var s := AfterAdd(l, EMPTY, a);
            s.ring.Keys == Elements(Positions(l, a, l.virtualNodes)) && s.nodes == {a}
  {
    PlacedRing(l, map[], a, l.virtualNodes);
  }

  lemma RingAfterRoundTrip(l: Layout, s: RingState, n: int)
    requires n !in s.nodes
    ensures var t := AfterRemove(l, AfterAdd(l, s, n), n);
            t.ring.Keys == s.ring.Keys - Elements(Positions(l, n, l.virtualNodes)) && t.nodes == s.nodes
  {
    RemoveAfterAdd(l, s, n);
  }

  lemma RoundTripRun(l: Layout, a: int, b: int)
    ensures var s := AfterAdd(l, EMPTY, a);
            && Run(l, [Add(a)]) == s
            && Run(l, [Add(a)] + [Add(b)] + [Remove(b)]) == AfterRemove(l, AfterAdd(l, s, b), b)
  {
    RunAppend(l, [], Add(a));
    assert [] + [Add(a)] == [Add(a)];
    RunAppend(l, [Add(a)], Add(b));
    RunAppend(l, [Add(a)] + [Add(b)], Remove(b));
  }

  lemma OnePosition(l: Layout, n: int, h: Hash)
    requires l.virtualNodes >= 1 && forall name :: (l.hashKey)(name) == h
    ensures Elements(Positions(l, n, l.virtualNodes)) == {h}
  {
    assert Positions(l, n, l.virtualNodes)[0] == h;
  }

  /** What a node builds from its configuration: one addition per listed ID. */
  function Loading(ids: seq<int>): (r: seq<RingOp>)
    ensures |r| == |ids| && forall i :: 0 <= i < |ids| ==> r[i] == Add(ids[i])
  {
    seq(|ids|, i requires 0 <= i < |ids| => Add(ids[i]))
  }

  lemma {:induction false} LoadingNodes(ids: seq<int>)
    ensures NodesOf(Loading(ids)) == Mentioned(Loading(ids)) == Elements(ids)
  {
    forall n ensures n in Mentioned(Loading(ids)) <==> n in ids {
      if n in ids {
        var i :| 0 <= i < |ids| && ids[i] == n;
        assert Loading(ids)[i] in Loading(ids);
      }
    }
    if ids != [] {
      var k := |ids| - 1;
      LoadingNodes(ids[..k]);
      assert Loading(ids)[..k] == Loading(ids[..k]);
      assert ids == ids[..k] + [ids[k]];
    }
  }

  /** Loading any node leaves positions on the ring, colliding or not. */
  lemma {:induction false} LoadedRing(l: Layout, ids: seq<int>)
    requires l.virtualNodes >= 1
    ensures Run(l, Loading(ids)).ring == map[] <==> ids == []
  {
    if ids != [] {
      var k := |ids| - 1;
      LoadedRing(l, ids[..k]);
      assert Loading(ids)[..k] == Loading(ids[..k]);
      var s := Run(l, Loading(ids[..k]));
      if ids[k] in s.nodes {
        assert ids[..k] != [];
      } else {
        PlacedRing(l, s.ring, ids[k], l.virtualNodes);
        assert Position(l, ids[k], 0) == Positions(l, ids[k], l.virtualNodes)[0];
        assert Position(l, ids[k], 0) in Run(l, Loading(ids)).ring;
      }
    }
  }

  /** The owners of a key on the ring that a history of operations leaves. */
  ghost function OwnersAfter(l: Layout, ops: seq<RingOp>, key: string, count: nat): seq<int> {
    InvariantAlways(l, ops);
    NodesFor(l, Run(l, ops), key, count)
  }

  /** Nodes that read the same configuration in different orders agree on every key's owners. */
  lemma AnyLoadingOrderAgrees(l: Layout, ids1: seq<int>, ids2: seq<int>, key: string, count: nat)
    requires Elements(ids1) == Elements(ids2) && NoCollisions(l, Elements(ids1))
    ensures OwnersAfter(l, Loading(ids1), key, count) == OwnersAfter(l, Loading(ids2), key, count)
  {
    LoadingNodes(ids1);
    LoadingNodes(ids2);
    HistoryIndependence(l, Loading(ids1), Loading(ids2));
  }

  // ----- Distances -----

  /** Clockwise distance from a key's position to a ring position, modulo 2^64. */
  function Distance(h: Hash, k: Hash): (d: int)
    ensures d == if k <= h then h - k else h - k + SPACE
  {
    (h - k) % SPACE
  }

  /** The least distance over the first `count` virtual nodes. */
  function LeastDistance(l: Layout, node: int, k: Hash, count: nat): int
    requires count >= 1
  {
    var last := Distance(Position(l, node, count - 1), k);
    if count == 1 then last
    else
      var d := LeastDistance(l, node, k, count - 1);
      if last < d then last else d
  }

  function NodeDistance(l: Layout, node: int, k: Hash): int
    requires l.virtualNodes >= 1
  {
    LeastDistance(l, node, k, l.virtualNodes)
  }

  lemma {:induction false} LeastIsLeast(l: Layout, node: int, k: Hash, count: nat) returns (at: nat)
    requires count >= 1
    ensures at < count && LeastDistance(l, node, k, count) == Distance(Position(l, node, at), k)
    ensures forall i: nat {:trigger Position(l, node, i)} :: i < count ==>
              LeastDistance(l, node, k, count) <= Distance(Position(l, node, i), k)
  {
    at := count - 1;
    if count > 1 {
      var earlier := LeastIsLeast(l, node, k, count - 1);
      if LeastDistance(l, node, k, count - 1) <= Distance(Position(l, node, at), k) {
        at := earlier;
      }
    }
  }

  /** The specification of a lookup: all nodes, nearest first. */
  ghost predicate NearestFirst(l: Layout, nodes: set<int>, k: Hash, order: seq<int>)
    requires l.virtualNodes >= 1
  {
    && Elements(order) == nodes
    && ByDistance(l, k, order)
  }

  ghost predicate ByDistance(l: Layout, k: Hash, order: seq<int>)
    requires l.virtualNodes >= 1
  {
    forall i, j :: 0 <= i < j < |order| ==> NodeDistance(l, order[i], k) < NodeDistance(l, order[j], k)
  }

  lemma {:induction false} NearestFirstUnique(l: Layout, nodes: set<int>, k: Hash, a: seq<int>, b: seq<int>)
    requires l.virtualNodes >= 1
    requires NearestFirst(l, nodes, k, a) && NearestFirst(l, nodes, k, b)
    ensures a == b
  {
    if a != [] && b != [] {
      assert a[0] in Elements(b) && b[0] in Elements(a);
      assert a[0] == b[0];
      forall x ensures x in Elements(a[1..]) <==> x in nodes && x != a[0] {
        assert x in Elements(a[1..]) <==> x in Elements(a) && x != a[0];
      }
      forall x ensures x in Elements(b[1..]) <==> x in nodes && x != a[0] {
        assert x in Elements(b[1..]) <==> x in Elements(b) && x != b[0];
      }
      NearestFirstUnique(l, nodes - {a[0]}, k, a[1..], b[1..]);
      assert a == [a[0]] + a[1..] && b == [b[0]] + b[1..];
    } else if a != [] {
      NonemptyHasMember(a);
    } else if b != [] {
      NonemptyHasMember(b);
    }
  }

  /** The clockwise walk meets positions at strictly growing distances. */
  lemma ClockwiseDistances(q: seq<Hash>, k: Hash)
    requires Ascending(q) && StrictlyAscending(q)
    ensures forall i, j :: 0 <= i < j < |q| ==> Distance(Clockwise(q, k)[i], k) < Distance(Clockwise(q, k)[j], k)
  {
  }

  /** A walk over the ring from a key: every position once, at growing distances. */
  ghost predicate IsWalk(s: RingState, k: Hash, walk: seq<Hash>) {
    && Elements(walk) == s.ring.Keys
    && forall i, j :: 0 <= i < j < |walk| ==> Distance(walk[i], k) < Distance(walk[j], k)
  }

  lemma LabelAt(l: Layout, s: RingState, h: Hash) returns (i: nat)
    requires Labelled(l, s) && h in s.ring
    ensures i < l.virtualNodes && Position(l, s.ring[h], i) == h
  {
    assert LabelledAt(l, s, h);
    i :| 0 <= i < l.virtualNodes && Positions(l, s.ring[h], l.virtualNodes)[i] == h;
  }

  lemma IndexOnWalk(s: RingState, k: Hash, walk: seq<Hash>, h: Hash) returns (b: nat)
    requires IsWalk(s, k, walk) && h in s.ring
    ensures b < |walk| && walk[b] == h && Owners(s.ring, walk)[b] == s.ring[h]
  {
    assert h in Elements(walk);
    b :| 0 <= b < |walk| && walk[b] == h;
  }

  /** The first time the walk meets a node, it meets it at the node's least distance. */
  lemma FirstMeeting(l: Layout, s: RingState, k: Hash, walk: seq<Hash>, a: nat)
    requires l.virtualNodes >= 1 && Canonical(l, s) && IsWalk(s, k, walk) && a < |walk|
    requires Owners(s.ring, walk)[a] !in Owners(s.ring, walk)[..a]
    ensures NodeDistance(l, Owners(s.ring, walk)[a], k) == Distance(walk[a], k)
  {
    var owners := Owners(s.ring, walk);
    var n := owners[a];
    assert walk[a] in Elements(walk) && s.ring[walk[a]] == n;
    var i0 := LabelAt(l, s, walk[a]);
    var i := LeastIsLeast(l, n, k, l.virtualNodes);
    assert NodeDistance(l, n, k) <= Distance(Position(l, n, i0), k);
    assert PlacedAt(l, s, n, i);
    var b := IndexOnWalk(s, k, walk, Position(l, n, i));
    assert forall c :: 0 <= c < a ==> owners[c] == owners[..a][c] != n;
  }

  /** Found so far, nearest first, and each at the distance of a position already met. */
  ghost predicate FoundInOrder(l: Layout, k: Hash, found: seq<int>, met: seq<Hash>)
    requires l.virtualNodes >= 1
  {
    && ByDistance(l, k, found)
    && forall n :: n in found ==> MetAt(l, k, n, met)
  }

  ghost predicate MetAt(l: Layout, k: Hash, n: int, met: seq<Hash>)
    requires l.virtualNodes >= 1
  {
    exists a :: 0 <= a < |met| && NodeDistance(l, n, k) == Distance(met[a], k)
  }

  ghost predicate FirstMetNearest(l: Layout, k: Hash, owners: seq<int>, walk: seq<Hash>, a: nat)
    requires l.virtualNodes >= 1 && |owners| == |walk| && a < |walk|
  {
    owners[a] !in owners[..a] ==> NodeDistance(l, owners[a], k) == Distance(walk[a], k)
  }

  ghost predicate Farther(met: seq<Hash>, k: Hash, h: Hash) {
    forall i :: 0 <= i < |met| ==> Distance(met[i], k) < Distance(h, k)
  }

  /** What a walk that meets each node first at its least distance has found after m positions. */
  lemma {:induction false} WalkPrefix(l: Layout, k: Hash, owners: seq<int>, walk: seq<Hash>, m: nat)
    requires l.virtualNodes >= 1 && |owners| == |walk| && m <= |walk|
    requires forall i, j :: 0 <= i < j < |walk| ==> Distance(walk[i], k) < Distance(walk[j], k)
    requires forall a {:trigger FirstMetNearest(l, k, owners, walk, a)} :: 0 <= a < |walk| ==>
               FirstMetNearest(l, k, owners, walk, a)
    ensures FoundInOrder(l, k, FirstOccurrences(owners[..m]), walk[..m])
  {
    if m > 0 {
      WalkPrefix(l, k, owners, walk, m - 1);
      assert FirstMetNearest(l, k, owners, walk, m - 1);
      assert Farther(walk[..m - 1], k, walk[m - 1]);
      WalkStep(l, k, owners, walk, m);
    }
  }

  lemma WalkStep(l: Layout, k: Hash, owners: seq<int>, walk: seq<Hash>, m: nat)
    requires l.virtualNodes >= 1 && |owners| == |walk| && 0 < m <= |walk|
    requires FoundInOrder(l, k, FirstOccurrences(owners[..m - 1]), walk[..m - 1])
    requires FirstMetNearest(l, k, owners, walk, m - 1) && Farther(walk[..m - 1], k, walk[m - 1])
    ensures FoundInOrder(l, k, FirstOccurrences(owners[..m]), walk[..m])
  {
    var before, n, met, h := FirstOccurrences(owners[..m - 1]), owners[m - 1], walk[..m - 1], walk[m - 1];
    FirstOccurrencesStep(owners, m);
    assert walk[..m] == met + [h];
    if n in before {
      MeetNext(l, k, before, met, h);
    } else {
      FindNext(l, k, before, n, met, h);
    }
  }

  lemma FirstOccurrencesStep(w: seq<int>, m: nat)
    requires 0 < m <= |w|
    ensures var before := FirstOccurrences(w[..m - 1]);
            && (w[m - 1] in before <==> w[m - 1] in w[..m - 1])
            && FirstOccurrences(w[..m]) == if w[m - 1] in before then before else before + [w[m - 1]]
  {
    assert w[..m][..m - 1] == w[..m - 1];
    assert w[m - 1] in Elements(FirstOccurrences(w[..m - 1])) <==> w[m - 1] in Elements(w[..m - 1]);
  }

  lemma MeetNext(l: Layout, k: Hash, found: seq<int>, met: seq<Hash>, h: Hash)
    requires l.virtualNodes >= 1 && FoundInOrder(l, k, found, met)
    ensures FoundInOrder(l, k, found, met + [h])
  {
    forall n | n in found ensures MetAt(l, k, n, met + [h]) {
      var a :| 0 <= a < |met| && NodeDistance(l, n, k) == Distance(met[a], k);
      assert (met + [h])[a] == met[a];
    }
  }

  lemma FindNext(l: Layout, k: Hash, found: seq<int>, n: int, met: seq<Hash>, h: Hash)
    requires l.virtualNodes >= 1 && FoundInOrder(l, k, found, met)
    requires NodeDistance(l, n, k) == Distance(h, k)
    requires Farther(met, k, h)
    ensures FoundInOrder(l, k, found + [n], met + [h])
  {
    MeetNext(l, k, found, met, h);
    assert (met + [h])[|met|] == h && MetAt(l, k, n, met + [h]);
    forall i | 0 <= i < |found| ensures NodeDistance(l, found[i], k) < NodeDistance(l, n, k) {
      assert found[i] in found && MetAt(l, k, found[i], met);
    }
  }

  lemma WalkOwners(l: Layout, s: RingState, walk: seq<Hash>)
    requires l.virtualNodes >= 1 && Canonical(l, s) && Elements(walk) == s.ring.Keys
    ensures Elements(Owners(s.ring, walk)) == s.nodes
  {
    var owners := Owners(s.ring, walk);
    forall n | n in s.nodes ensures n in owners {
      var h := Position(l, n, 0);
      assert PlacedAt(l, s, n, 0);
      assert h in Elements(walk);
      var a :| 0 <= a < |walk| && walk[a] == h;
      assert owners[a] == n;
    }
    forall n | n in owners ensures n in s.nodes {
      var a :| 0 <= a < |walk| && owners[a] == n;
      assert walk[a] in Elements(walk);
    }
  }

  lemma WalkIsNearestFirst(l: Layout, s: RingState, k: Hash, walk: seq<Hash>)
    requires l.virtualNodes >= 1 && Canonical(l, s) && IsWalk(s, k, walk)
    ensures NearestFirst(l, s.nodes, k, FirstOccurrences(Owners(s.ring, walk)))
  {
    var owners := Owners(s.ring, walk);
    forall a | 0 <= a < |walk| ensures FirstMetNearest(l, k, owners, walk, a) {
      if owners[a] !in owners[..a] {
        FirstMeeting(l, s, k, walk, a);
      }
    }
    WalkPrefix(l, k, owners, walk, |walk|);
    assert owners[..|walk|] == owners;
    WalkOwners(l, s, walk);
  }

  /** Binary search, wrap-around and skipping of repeated nodes together compute the list
      of all nodes ordered by their least clockwise distance from the key. */
  lemma {:induction false} PreferenceIsNearestFirst(l: Layout, s: RingState, k: Hash)
    requires l.virtualNodes >= 1 && Canonical(l, s)
    ensures NearestFirst(l, s.nodes, k, Preference(s, k)) && |Preference(s, k)| == |s.nodes|
  {
    var walk := Clockwise(s.sorted, k);
    ClockwiseDistances(s.sorted, k);
    WalkIsNearestFirst(l, s, k, walk);
    DistinctSize(Preference(s, k));
  }

  lemma {:induction false} DistinctSize<T>(q: seq<T>)
    requires Distinct(q)
    ensures |Elements(q)| == |q|
  {
    if q != [] {
      var n := |q| - 1;
      DistinctSize(q[..n]);
      assert q == q[..n] + [q[n]];
      assert Elements(q) == Elements(q[..n]) + {q[n]};
    }
  }

  /** GetNodes against its specification: whatever nearest-first list one writes down, the
      answer is its first min(count, number of nodes) entries. */
  lemma NodesForRefinesNearest(l: Layout, s: RingState, key: string, count: nat, nearest: seq<int>)
    requires l.virtualNodes >= 1 && Canonical(l, s)
    requires NearestFirst(l, s.nodes, (l.hashKey)(key), nearest)
    ensures |nearest| == |s.nodes|
    ensures NodesFor(l, s, key, count) == nearest[..Min(count, |s.nodes|)]
  {
    var k := (l.hashKey)(key);
    PreferenceIsNearestFirst(l, s, k);
    NearestFirstUnique(l, s.nodes, k, Preference(s, k), nearest);
  }

  // ----- What a lookup means on any ring, colliding or not -----

  /** Position h of node a is nearer to the key than every position of node b. */
  ghost predicate NearerThanAll(s: RingState, k: Hash, h: Hash, b: int) {
    forall g :: g in s.ring && s.ring[g] == b ==> Distance(h, k) < Distance(g, k)
  }

  /** Some position of a is nearer than every position of b. */
  ghost predicate Nearer(s: RingState, k: Hash, a: int, b: int) {
    exists h :: h in s.ring && s.ring[h] == a && NearerThanAll(s, k, h, b)
  }

  /** These nodes have positions on the ring, are listed nearest first, and are all nearer than
      the nodes on the ring that are not listed. */
  ghost predicate NearestOnRing(s: RingState, k: Hash, order: seq<int>) {
    && Elements(order) <= s.ring.Values
    && (forall i, j :: 0 <= i < j < |order| ==> Nearer(s, k, order[i], order[j]))
    && (forall i, n :: 0 <= i < |order| && n in s.ring.Values && n !in order ==> Nearer(s, k, order[i], n))
  }

  lemma NearerIsStrict(s: RingState, k: Hash, a: int, b: int)
    requires Nearer(s, k, a, b)
    ensures a != b && !Nearer(s, k, b, a)
  {
    var h :| h in s.ring && s.ring[h] == a && NearerThanAll(s, k, h, b);
  }

  /** There is only one such list of each length: this is a complete description of lookups. */
  lemma {:induction false} NearestOnRingUnique(s: RingState, k: Hash, a: seq<int>, b: seq<int>, m: nat)
    requires NearestOnRing(s, k, a) && NearestOnRing(s, k, b) && |a| == |b| && m <= |a|
    ensures a[..m] == b[..m]
  {
    if m > 0 {
      NearestOnRingUnique(s, k, a, b, m - 1);
      var x, y := a[m - 1], b[m - 1];
      if x != y {
        assert x in Elements(a) && y in Elements(b);
        Precedes(s, k, a, b, m - 1);
        Precedes(s, k, b, a, m - 1);
        NearerIsStrict(s, k, x, y);
      }
      assert a[..m] == a[..m - 1] + [x] && b[..m] == b[..m - 1] + [y];
    }
  }

  lemma Precedes(s: RingState, k: Hash, a: seq<int>, b: seq<int>, m: nat)
    requires NearestOnRing(s, k, a) && NearestOnRing(s, k, b) && m < |a| && m < |b| && a[..m] == b[..m] && a[m] != b[m]
    ensures Nearer(s, k, a[m], b[m])
  {
    assert b[m] in Elements(b);
    if b[m] in a {
      var j :| 0 <= j < |a| && a[j] == b[m];
      if j < m {
        assert b[j] == a[..m][j] == b[m];
        NearerIsStrict(s, k, b[j], b[m]);
      }
    }
  }

  function FirstIndex(w: seq<int>, v: int): (r: nat)
    requires v in w
    ensures r < |w| && w[r] == v && forall i :: 0 <= i < r ==> w[i] != v
  {
    if w[0] == v then 0 else 1 + FirstIndex(w[1..], v)
  }

  /** First occurrences are listed in the order in which they occur. */
  lemma {:induction false} FirstOccurrencesInOrder(w: seq<int>, i: nat, j: nat)
    requires i < j < |FirstOccurrences(w)|
    ensures FirstOccurrences(w)[i] in w && FirstOccurrences(w)[j] in w
    ensures FirstIndex(w, FirstOccurrences(w)[i]) < FirstIndex(w, FirstOccurrences(w)[j])
  {
    var f, n := FirstOccurrences(w), |w| - 1;
    assert f[i] in Elements(f) && f[j] in Elements(f);
    var g := FirstOccurrences(w[..n]);
    if j < |g| {
      FirstOccurrencesInOrder(w[..n], i, j);
      SameFirstIndex(w, f[i]);
      SameFirstIndex(w, f[j]);
    } else {
      assert f == g + [w[n]] && f[j] == w[n] && w[n] !in Elements(g);
      assert f[i] in Elements(g);
      SameFirstIndex(w, f[i]);
      assert w[n] !in w[..n];
      assert forall p :: 0 <= p < n ==> w[p] == w[..n][p];
    }
  }

  lemma SameFirstIndex(w: seq<int>, v: int)
    requires w != [] && v in w[..|w| - 1]
    ensures FirstIndex(w, v) == FirstIndex(w[..|w| - 1], v)
  {
    var n := |w| - 1;
    assert forall p :: 0 <= p < n ==> w[p] == w[..n][p];
  }

  lemma ClockwiseNeverNearer(q: seq<Hash>, k: Hash, i: nat, j: nat)
    requires Ascending(q) && i < j < |q|
    ensures Distance(Clockwise(q, k)[i], k) <= Distance(Clockwise(q, k)[j], k)
  {
  }

  /** On the walk from a key, the owner met first is the nearer one. */
  lemma MetFirstIsNearer(s: RingState, k: Hash, a: int, b: int)
    requires RingInvariant(s) && a != b
    requires var owners := Owners(s.ring, Clockwise(s.sorted, k));
             a in owners && b in owners && FirstIndex(owners, a) < FirstIndex(owners, b)
    ensures Nearer(s, k, a, b)
  {
    var walk := Clockwise(s.sorted, k);
    var owners := Owners(s.ring, walk);
    var i := FirstIndex(owners, a);
    var h := walk[i];
    assert h in Elements(walk) && s.ring[h] == a;
    forall g | g in s.ring && s.ring[g] == b ensures Distance(h, k) < Distance(g, k) {
      assert g in Elements(walk);
      var j :| 0 <= j < |walk| && walk[j] == g;
      assert owners[j] == b && i < FirstIndex(owners, b);
      ClockwiseNeverNearer(s.sorted, k, i, j);
      DistanceTells(h, g, k);
    }
    assert NearerThanAll(s, k, h, b);
  }

  lemma DistanceTells(h: Hash, g: Hash, k: Hash)
    ensures Distance(h, k) == Distance(g, k) <==> h == g
  {
  }

  lemma OwnersAreValues(s: RingState, walk: seq<Hash>)
    requires Elements(walk) == s.ring.Keys
    ensures Elements(Owners(s.ring, walk)) == s.ring.Values
  {
    var owners := Owners(s.ring, walk);
    forall v | v in s.ring.Values ensures v in owners {
      var h :| h in s.ring && s.ring[h] == v;
      assert h in Elements(walk);
      var i :| 0 <= i < |walk| && walk[i] == h;
      assert owners[i] == v;
    }
    forall v | v in owners ensures v in s.ring.Values {
      var i :| 0 <= i < |owners| && owners[i] == v;
      assert walk[i] in Elements(walk);
    }
  }

  lemma PrefixIsNearest(s: RingState, k: Hash, f: seq<int>, m: nat)
    requires m <= |f| && Elements(f) == s.ring.Values
    requires forall i, j :: 0 <= i < j < |f| ==> Nearer(s, k, f[i], f[j])
    ensures NearestOnRing(s, k, f[..m])
  {
    forall i, n | 0 <= i < m && n in s.ring.Values && n !in f[..m] ensures Nearer(s, k, f[i], n) {
      assert n in Elements(f);
      var j :| 0 <= j < |f| && f[j] == n;
      assert f[..m] + f[m..] == f;
    }
    assert Elements(f[..m]) <= Elements(f);
  }

  lemma PreferenceIsNearest(s: RingState, k: Hash, m: nat)
    requires RingInvariant(s) && m <= |Preference(s, k)|
    ensures NearestOnRing(s, k, Preference(s, k)[..m])
    ensures Elements(Preference(s, k)) == s.ring.Values
  {
    var owners, f := Owners(s.ring, Clockwise(s.sorted, k)), Preference(s, k);
    OwnersAreValues(s, Clockwise(s.sorted, k));
    forall i, j | 0 <= i < j < |f| ensures Nearer(s, k, f[i], f[j]) {
      FirstOccurrencesInOrder(owners, i, j);
      MetFirstIsNearer(s, k, f[i], f[j]);
    }
    PrefixIsNearest(s, k, f, m);
  }

  /** The answer of a lookup on any ring: as many nodes as asked for, as far as the ring has
      them, nearest first and nearer than all others. */
  lemma NodesForIsNearest(l: Layout, s: RingState, key: string, count: nat)
    requires RingInvariant(s)
    ensures var nodes := NodesFor(l, s, key, count);
            NearestOnRing(s, (l.hashKey)(key), nodes) && |nodes| == Min(count, |s.ring.Values|)
  {
    var k := (l.hashKey)(key);
    var f := Preference(s, k);
    PreferenceIsNearest(s, k, Min(Min(count, |s.nodes|), |f|));
    DistinctSize(f);
    forall v | v in s.ring.Values ensures v in s.nodes {
    }
    SubsetSize(s.ring.Values, s.nodes);
  }

  /** No position is nearer to the key. */
  ghost predicate Closest(s: RingState, k: Hash, h: Hash) {
    h in s.ring && forall g :: g in s.ring ==> Distance(h, k) <= Distance(g, k)
  }

  lemma HeadIsClosest(s: RingState, k: Hash)
    requires RingInvariant(s) && s.sorted != []
    ensures Closest(s, k, Clockwise(s.sorted, k)[0])
  {
    var walk := Clockwise(s.sorted, k);
    assert walk[0] in Elements(walk);
    forall g | g in s.ring ensures Distance(walk[0], k) <= Distance(g, k) {
      assert g in Elements(walk);
      var j :| 0 <= j < |walk| && walk[j] == g;
      if j > 0 {
        ClockwiseNeverNearer(s.sorted, k, 0, j);
      }
    }
  }

  // ----- Minimal movement -----

  lemma {:induction false} WithoutAbsent<T(!new)>(w: seq<T>, x: T)
    requires x !in w
    ensures Without(w, x) == w
  {
    if w != [] {
      var n := |w| - 1;
      assert w == w[..n] + [w[n]];
      WithoutAbsent(w[..n], x);
    }
  }

  lemma {:induction false} WithoutAt<T(!new)>(w: seq<T>, p: nat)
    requires p < |w| && Distinct(w)
    ensures Without(w, w[p]) == w[..p] + w[p + 1..]
  {
    var n := |w| - 1;
    if p == n {
      WithoutAbsent(w[..n], w[n]);
    } else {
      WithoutAt(w[..n], p);
      assert w[..n][..p] == w[..p] && w[..n][p + 1..] + [w[n]] == w[p + 1..];
    }
  }

  lemma NearestWithout(l: Layout, nodes: set<int>, x: int, k: Hash, order: seq<int>)
    requires l.virtualNodes >= 1 && x !in nodes && Distinct(order)
    requires NearestFirst(l, nodes + {x}, k, order)
    ensures NearestFirst(l, nodes, k, Without(order, x))
  {
    assert x in Elements(order);
    var p :| 0 <= p < |order| && order[p] == x;
    WithoutAt(order, p);
    var rest := Without(order, x);
    forall n ensures n in Elements(rest) <==> n in nodes {
      assert n in Elements(rest) <==> n in Elements(order) && n != x;
    }
  }

  /** `before` is `after` without x, except that x may have pushed out the last entry. */
  ghost predicate MovesLittle(before: seq<int>, after: seq<int>, x: int, count: nat) {
    && Without(after, x) <= before
    && |Without(after, x)| >= |before| - 1
    && (x !in after ==> after == before)
    && (|before| < count ==> Without(after, x) == before)
  }

  lemma KeptWhenPresent(order: seq<int>, p: nat, n: nat)
    requires Distinct(order) && p < n <= |order|
    ensures |Without(order, order[p])| == |order| - 1
    ensures Without(order[..n], order[p]) == Without(order, order[p])[..n - 1]
  {
    WithoutAt(order, p);
    WithoutAt(order[..n], p);
  }

  lemma KeptWhenAbsent(order: seq<int>, p: nat, n: nat)
    requires Distinct(order) && n <= p < |order|
    ensures order[p] !in order[..n] && |Without(order, order[p])| == |order| - 1
    ensures Without(order[..n], order[p]) == order[..n] == Without(order, order[p])[..n]
  {
    WithoutAt(order, p);
    WithoutAbsent(order[..n], order[p]);
  }

  lemma PrefixMoves(order: seq<int>, x: int, count: nat)
    requires Distinct(order) && x in order
    ensures |order| == |Without(order, x)| + 1
    ensures MovesLittle(Without(order, x)[..Min(count, |Without(order, x)|)], order[..Min(count, |order|)], x, count)
  {
    var p :| 0 <= p < |order| && order[p] == x;
    var n := Min(count, |order|);
    WithoutAt(order, p);
    if p < n {
      KeptWhenPresent(order, p, n);
      assert order[..n][p] == x;
    } else {
      KeptWhenAbsent(order, p, n);
    }
  }

  /** The owners of a key in a ring with x against a ring without x: apart from x itself
      the larger ring keeps the smaller ring's owners in order, giving up at most the
      last one, and it changes nothing when x is not among its owners. */
  lemma {:induction false} MinimalMovement(l: Layout, s: RingState, t: RingState, x: int, key: string, count: nat)
    requires l.virtualNodes >= 1 && Canonical(l, s) && Canonical(l, t)
    requires x !in s.nodes && t.nodes == s.nodes + {x} && count >= 1
    ensures MovesLittle(NodesFor(l, s, key, count), NodesFor(l, t, key, count), x, count)
  {
    var k := (l.hashKey)(key);
    PreferenceIsNearestFirst(l, s, k);
    PreferenceIsNearestFirst(l, t, k);
    var order := Preference(t, k);
    NearestWithout(l, s.nodes, x, k, order);
    NearestFirstUnique(l, s.nodes, k, Without(order, x), Preference(s, k));
    assert x in Elements(order);
    PrefixMoves(order, x, count);
  }

  lemma {:induction false} AddMovesLittle(l: Layout, s: RingState, x: int, key: string, count: nat)
    requires l.virtualNodes >= 1 && count >= 1
    requires Canonical(l, s) && NoCollisions(l, s.nodes + {x}) && x !in s.nodes
    ensures Canonical(l, AfterAdd(l, s, x))
    ensures MovesLittle(NodesFor(l, s, key, count), NodesFor(l, AfterAdd(l, s, x), key, count), x, count)
  {
    CanonicalAdd(l, s, x, s.nodes + {x});
    MinimalMovement(l, s, AfterAdd(l, s, x), x, key, count);
  }

  lemma {:induction false} RemoveMovesLittle(l: Layout, s: RingState, x: int, key: string, count: nat)
    requires l.virtualNodes >= 1 && count >= 1
    requires Canonical(l, s) && NoCollisions(l, s.nodes) && x in s.nodes
    ensures Canonical(l, AfterRemove(l, s, x))
    ensures MovesLittle(NodesFor(l, AfterRemove(l, s, x), key, count), NodesFor(l, s, key, count), x, count)
  {
    CanonicalRemove(l, s, x, s.nodes);
    assert s.nodes - {x} + {x} == s.nodes;
    MinimalMovement(l, AfterRemove(l, s, x), s, x, key, count);
  }

  // ----- The head of the list, and growing the replication factor -----

  lemma {:induction false} FirstOccurrencesPrefix(w: seq<int>, m: nat)
    requires m <= |w|
    ensures FirstOccurrences(w[..m]) <= FirstOccurrences(w)
  {
    if m < |w| {
      var n := |w| - 1;
      FirstOccurrencesPrefix(w[..n], m);
      assert w[..n][..m] == w[..m];
    } else {
      assert w[..m] == w;
    }
  }

  lemma NonemptyList(s: RingState)
    requires RingInvariant(s) && s.ring != map[]
    ensures s.sorted != []
  {
    assert s.sorted == [] ==> s.ring.Keys == {};
  }

  /** The first owner is the node at the first position met on the walk. */
  lemma HeadOfPreference(s: RingState, k: Hash)
    requires RingInvariant(s) && s.sorted != []
    ensures Clockwise(s.sorted, k)[0] in s.ring
    ensures Preference(s, k) != [] && Preference(s, k)[0] == s.ring[Clockwise(s.sorted, k)[0]] && |s.nodes| >= 1
  {
    var walk := Clockwise(s.sorted, k);
    assert walk[0] in Elements(walk);
    var owners := Owners(s.ring, walk);
    assert owners[..1] == [owners[0]] && owners[..1][..0] == [];
    assert FirstOccurrences(owners[..1]) == [owners[0]];
    FirstOccurrencesPrefix(owners, 1);
    assert owners[0] in s.nodes;
  }

  lemma NoOwnersIffEmpty(l: Layout, s: RingState, key: string, count: nat)
    requires RingInvariant(s) && count >= 1
    ensures NodesFor(l, s, key, count) == [] <==> s.ring == map[]
  {
    if s.sorted != [] {
      assert s.sorted[0] in Elements(s.sorted);
      HeadOfPreference(s, (l.hashKey)(key));
    } else {
      assert s.ring.Keys == {};
      assert Elements(Preference(s, (l.hashKey)(key))) == {};
    }
  }

  lemma PrefixOfPrefix(q: seq<int>, a: nat, b: nat)
    requires a <= b <= |q|
    ensures q[..a] <= q[..b]
  {
    assert q[..b][..a] == q[..a];
  }

  /** A larger replication factor only appends owners. */
  lemma NodesForMonotone(l: Layout, s: RingState, key: string, small: nat, large: nat)
    requires RingInvariant(s) && small <= large
    ensures NodesFor(l, s, key, small) <= NodesFor(l, s, key, large)
  {
    var order := Preference(s, (l.hashKey)(key));
    PrefixOfPrefix(order, Min(Min(small, |s.nodes|), |order|), Min(Min(large, |s.nodes|), |order|));
  }
}
