/** The consistent hash ring, updated in place. */
module ConsistentHash {
  import opened Collections
  import opened Labels
  import opened Ring
  import opened RingTheorems

  class ConsistentHash {
    const hashKey: string -> Hash
    const virtualNodes: nat
    var ring: map<Hash, int>
    var sortedHashes: seq<Hash>
    var physicalNodes: set<int>
    ghost var history: seq<RingOp>  // the operations so far

    function Layout(): Layout {
      StandardLayout(hashKey, virtualNodes)
    }

    function State(): RingState
      reads this
    {
      RingState(ring, sortedHashes, physicalNodes)
    }

    ghost predicate Valid()
      reads this
    {
      virtualNodes >= 1 && State() == Run(Layout(), history)
    }

    constructor (virtualNodesPerPhysical: int, hashKey: string -> Hash)
      ensures Valid() && history == []
      ensures this.hashKey == hashKey
      ensures virtualNodes == if virtualNodesPerPhysical <= 0 then 160 else virtualNodesPerPhysical
    {
      this.hashKey := hashKey;
      virtualNodes := if virtualNodesPerPhysical <= 0 then 160 else virtualNodesPerPhysical;
      ring, sortedHashes, physicalNodes, history := map[], [], {}, [];
    }

    method AddNode(nodeID: int)
      requires Valid()
      modifies this
      ensures Valid() && history == old(history) + [Add(nodeID)]
      ensures nodeID in old(physicalNodes) ==> State() == old(State())
      ensures nodeID !in old(physicalNodes) ==>
                && physicalNodes == old(physicalNodes) + {nodeID}
                && ring.Keys == old(ring.Keys) + LabelHashes(nodeID)
                && (forall h :: h in ring ==> ring[h] == if h in LabelHashes(nodeID) then nodeID else old(ring)[h])
                && Ascending(sortedHashes)
                && multiset(sortedHashes) ==
                   multiset(old(sortedHashes)) + multiset(Positions(Layout(), nodeID, virtualNodes))
    {
      history := history + [Add(nodeID)];
      RunAppend(Layout(), old(history), Add(nodeID));
      if nodeID in physicalNodes {
        return;
      }
      physicalNodes := physicalNodes + {nodeID};
      PlaceVirtualNodes(nodeID);
      PlacedRing(Layout(), old(ring), nodeID, virtualNodes);
      PositionsAreLabelHashes(nodeID);
      sortedHashes := Sorted(sortedHashes);
    }

    /** Where the labels of a node hash to. */
    function LabelHashes(nodeID: int): (hashes: set<Hash>)
      ensures forall h :: h in hashes <==> exists i: nat :: i < virtualNodes && hashKey(Label(nodeID, i)) == h
    {
      set i: nat | i < virtualNodes :: hashKey(Label(nodeID, i))
    }

    lemma PositionsAreLabelHashes(nodeID: int)
      ensures Elements(Positions(Layout(), nodeID, virtualNodes)) == LabelHashes(nodeID)
    {
      var q := Positions(Layout(), nodeID, virtualNodes);
      forall h | h in LabelHashes(nodeID) ensures h in q {
        var i: nat :| i < virtualNodes && hashKey(Label(nodeID, i)) == h;
        assert q[i] == h;
      }
    }

    method PlaceVirtualNodes(nodeID: int)
      modifies this`ring, this`sortedHashes
      ensures ring == Placed(Layout(), old(ring), nodeID, virtualNodes)
      ensures sortedHashes == old(sortedHashes) + Positions(Layout(), nodeID, virtualNodes)
    {
      for i := 0 to virtualNodes
        invariant ring == Placed(Layout(), old(ring), nodeID, i)
        invariant sortedHashes == old(sortedHashes) + Positions(Layout(), nodeID, i)
      {
        var hash := hashKey(Label(nodeID, i));
        assert hash == Position(Layout(), nodeID, i);
        PositionsStep(Layout(), nodeID, i);
        ring := ring[hash := nodeID];
        sortedHashes := sortedHashes + [hash];
      }
    }

    method RemoveNode(nodeID: int)
      requires Valid()
      modifies this
      ensures Valid() && history == old(history) + [Remove(nodeID)]
      ensures nodeID !in old(physicalNodes) ==> State() == old(State())
      ensures nodeID in old(physicalNodes) ==>
                && physicalNodes == old(physicalNodes) - {nodeID}
                && ring == old(ring) - LabelHashes(nodeID)
                && StrictlyAscending(sortedHashes) && Elements(sortedHashes) == ring.Keys
    {
      history := history + [Remove(nodeID)];
      RunAppend(Layout(), old(history), Remove(nodeID));
      if nodeID !in physicalNodes {
        return;
      }
      physicalNodes := physicalNodes - {nodeID};
      DropVirtualNodes(nodeID);
      PositionsAreLabelHashes(nodeID);
      RebuildSortedHashes();
    }

    method DropVirtualNodes(nodeID: int)
      modifies this`ring
      ensures ring == old(ring) - Elements(Positions(Layout(), nodeID, virtualNodes))
    {
      for i := 0 to virtualNodes
        invariant ring == old(ring) - Elements(Positions(Layout(), nodeID, i))
      {
        var hash := hashKey(Label(nodeID, i));
        ring := ring - {hash};
        PositionsStep(Layout(), nodeID, i);
      }
    }

    /** List the ring's positions in whatever order the map gives them, then sort. */
    method RebuildSortedHashes()
      modifies this`sortedHashes
      ensures sortedHashes == AscendingOf(ring.Keys)
    {
      sortedHashes := [];
      var todo := ring.Keys;
      while todo != {}
        invariant todo <= ring.Keys
        invariant Elements(sortedHashes) == ring.Keys - todo
        invariant Distinct(sortedHashes)
        decreases todo
      {
        var hash := AnyOf(todo);
        todo := todo - {hash};
        assert hash !in Elements(sortedHashes);
        assert Elements(sortedHashes + [hash]) == Elements(sortedHashes) + {hash};
        sortedHashes := sortedHashes + [hash];
      }
      ghost var listed := sortedHashes;
      sortedHashes := Sorted(sortedHashes);
      forall x | x in listed ensures multiset(listed)[x] == 1 {
        DistinctOnce(listed, x);
      }
      SortedWithoutDuplicates(listed);
      SameMembers(sortedHashes, listed);
      StrictlyAscendingUnique(sortedHashes, AscendingOf(ring.Keys));
    }

    /** Binary search for the first position at or after the hash. */
    method Search(hash: Hash) returns (idx: nat)
      requires Ascending(sortedHashes)
      ensures idx == LowerBound(sortedHashes, hash)
    {
      var lo, hi := 0, |sortedHashes|;
      while lo < hi
        invariant 0 <= lo <= hi <= |sortedHashes|
        invariant forall i :: 0 <= i < lo ==> sortedHashes[i] < hash
        invariant forall i :: hi <= i < |sortedHashes| ==> hash <= sortedHashes[i]
      {
        var mid := (lo + hi) / 2;
        if sortedHashes[mid] >= hash {
          hi := mid;
        } else {
          lo := mid + 1;
        }
      }
      LowerBoundUnique(sortedHashes, hash, lo);
      idx := lo;
    }

    /** The nearest node of the specification. */
    ghost function Nearest(key: string): int
      reads this
      requires Valid() && ring != map[]
    {
      InvariantAlways(Layout(), history);
      NonemptyList(State());
      HeadOfPreference(State(), hashKey(key));
      Preference(State(), hashKey(key))[0]
    }

    /** The index a lookup starts from: the binary search's answer, wrapped around. */
    method Start(key: string) returns (idx: nat)
      requires Ascending(sortedHashes) && sortedHashes != []
      ensures idx < |sortedHashes| && From(sortedHashes, idx) == Clockwise(sortedHashes, hashKey(key))
    {
      idx := Search(hashKey(key));
      if idx == |sortedHashes| {
        idx := 0;
      }
    }

    /** The node at the first position clockwise from the key; -1 on an empty ring. */
    method GetNode(key: string) returns (node: int)
      requires Valid()
      ensures node == if ring == map[] then -1 else Nearest(key)
      ensures ring != map[] ==>
                exists h :: h in ring && ring[h] == node && Closest(State(), hashKey(key), h)
    {
      InvariantAlways(Layout(), history);
      if |ring| == 0 {
        return -1;
      }
      NonemptyList(State());
      var idx := Start(key);
      HeadOfPreference(State(), hashKey(key));
      HeadIsClosest(State(), hashKey(key));
      return ring[sortedHashes[idx]];
    }

    /** The first `replicaCount` distinct nodes clockwise from the key. A negative count is
        only accepted on an empty ring: otherwise it is no valid capacity for the result. */
    method GetNodes(key: string, replicaCount: int) returns (nodes: seq<int>)
      requires Valid()
      requires ring != map[] ==> replicaCount >= 0
      ensures RingInvariant(State())
      ensures ring == map[] ==> nodes == []
      ensures ring != map[] ==> nodes == NodesFor(Layout(), State(), key, replicaCount)
      ensures ring != map[] ==> |nodes| == (if replicaCount < |ring.Values| then replicaCount else |ring.Values|)
      ensures NearestOnRing(State(), hashKey(key), nodes)
    {
      InvariantAlways(Layout(), history);
      if |ring| == 0 {
        return [];
      }
      NonemptyList(State());
      nodes := GetSome(key, replicaCount);
      NodesForIsNearest(Layout(), State(), key, replicaCount);
    }

    method GetSome(key: string, replicaCount: nat) returns (nodes: seq<int>)
      requires RingInvariant(State()) && sortedHashes != []
      ensures nodes == NodesFor(Layout(), State(), key, replicaCount)
    {
      var wanted := if replicaCount > |physicalNodes| then |physicalNodes| else replicaCount;
      var idx := Start(key);
      nodes := CollectDistinct(idx, wanted);
    }

    /** The node i positions further round the ring. */
    method OwnerAt(idx: nat, i: nat) returns (node: int)
      requires RingInvariant(State()) && idx < |sortedHashes| && i < |sortedHashes|
      ensures node == Owners(ring, From(sortedHashes, idx))[i]
    {
      FromAt(sortedHashes, idx, i);
      var currentIdx := (idx + i) % |sortedHashes|;
      assert sortedHashes[currentIdx] in Elements(sortedHashes);
      return ring[sortedHashes[currentIdx]];
    }

    /** The loop of GetNodes: walk the ring once around, skipping nodes already seen. */
    method CollectDistinct(idx: nat, wanted: nat) returns (nodes: seq<int>)
      requires RingInvariant(State()) && idx < |sortedHashes|
      ensures var all := FirstOccurrences(Owners(ring, From(sortedHashes, idx)));
              nodes == all[..Min(wanted, |all|)]
    {
      ghost var owners := Owners(ring, From(sortedHashes, idx));
      var seen := {};
      nodes := [];
      var i := 0;
      while i < |sortedHashes| && |nodes| < wanted
        invariant 0 <= i <= |sortedHashes| && |nodes| <= wanted
        invariant nodes == FirstOccurrences(owners[..i])
        invariant seen == Elements(nodes)
      {
        var nodeID := OwnerAt(idx, i);
        FirstOccurrencesStep(owners, i + 1);
        if nodeID !in seen {
          ExtendElements(nodes, nodeID);
          nodes := nodes + [nodeID];
          seen := seen + {nodeID};
        }
        i := i + 1;
      }
      CollectedEnough(owners, i, wanted);
    }
  }

  // ----- Rings as the program builds them, with its own labels -----

  /** The hash tells apart the labels of all nodes this ring has ever been given. */
  ghost predicate Collisionless(h: ConsistentHash)
    reads h
  {
    TellsApart(h.hashKey, LabelsOf(Mentioned(h.history), h.virtualNodes))
  }

  /** Such a ring holds exactly the labels of its present nodes. */
  lemma RingIsCanonical(h: ConsistentHash)
    requires h.Valid() && Collisionless(h)
    ensures Canonical(h.Layout(), h.State())
  {
    OnlyTheHashCollides(h.hashKey, h.virtualNodes, Mentioned(h.history));
    CanonicalAlways(h.Layout(), h.history);
  }

  /** Two rings of one kind are equal exactly when they have the same nodes, whatever was
      added and removed in whatever order on the way there. */
  lemma RingsAgree(a: ConsistentHash, b: ConsistentHash)
    requires a.Valid() && b.Valid() && a.hashKey == b.hashKey && a.virtualNodes == b.virtualNodes
    requires Collisionless(a) && Collisionless(b)
    ensures a.State() == b.State() <==> a.physicalNodes == b.physicalNodes
  {
    RingIsCanonical(a);
    RingIsCanonical(b);
    if a.physicalNodes == b.physicalNodes {
      CanonicalUnique(a.Layout(), a.State(), b.State());
    }
  }

  /** On such a ring the owners of a key are the first entries of the list of all its nodes by
      least clockwise distance, whichever way that list is come by. */
  lemma OwnersAreNearest(h: ConsistentHash, key: string, count: nat, nearest: seq<int>)
    requires h.Valid() && Collisionless(h)
    requires NearestFirst(h.Layout(), h.physicalNodes, h.hashKey(key), nearest)
    ensures RingInvariant(h.State()) && |nearest| == |h.physicalNodes|
    ensures NodesFor(h.Layout(), h.State(), key, count) == nearest[..Min(count, |nearest|)]
  {
    RingIsCanonical(h);
    NodesForRefinesNearest(h.Layout(), h.State(), key, count, nearest);
  }

  lemma CollectedEnough(owners: seq<int>, i: nat, wanted: nat)
    requires i <= |owners| && |FirstOccurrences(owners[..i])| <= wanted
    requires i == |owners| || |FirstOccurrences(owners[..i])| == wanted
    ensures var all := FirstOccurrences(owners);
            FirstOccurrences(owners[..i]) == all[..Min(wanted, |all|)]
  {
    FirstOccurrencesPrefix(owners, i);
    if i == |owners| {
      assert owners[..i] == owners;
    }
  }

  lemma ExtendElements<T>(q: seq<T>, x: T)
    ensures Elements(q + [x]) == Elements(q) + {x}
  {
  }
}
