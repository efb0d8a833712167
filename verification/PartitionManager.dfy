/** Which nodes store which key: the ring behind an on/off switch and a replication factor. */
module PartitionManager {
  import opened Collections
  import opened Ring
  import opened RingTheorems
  import opened ConsistentHash

  class PartitionManager {
    const hashRing: ConsistentHash
    var replicationFactor: int
    var enabled: bool

    ghost predicate Valid()
      reads this, hashRing
    {
      hashRing.Valid() && replicationFactor >= 1
    }

    /** The owners the ring's history determines. */
    ghost function Owners(key: string): seq<int>
      reads this, hashRing
      requires Valid()
    {
      OwnersAfter(hashRing.Layout(), hashRing.history, key, replicationFactor)
    }

    constructor (enabled: bool, replicationFactor: int, hashKey: string -> Hash)
      ensures Valid() && fresh(hashRing)
      ensures hashRing.hashKey == hashKey && hashRing.virtualNodes == 160 && hashRing.history == []
      ensures this.enabled == enabled
      ensures this.replicationFactor == if replicationFactor < 1 then 3 else replicationFactor
    {
      hashRing := new ConsistentHash(160, hashKey);
      this.replicationFactor := if replicationFactor < 1 then 3 else replicationFactor;
      this.enabled := enabled;
    }

    /** Set up from a configuration: an absent factor means 3, and every listed node joins
        the ring, provided partitioning is on. */
    static method FromConfig(enabled: bool, replicationFactor: int, ids: seq<int>, hashKey: string -> Hash)
      returns (pm: PartitionManager)
      ensures fresh(pm) && fresh(pm.hashRing) && pm.Valid() && pm.enabled == enabled
      ensures pm.hashRing.hashKey == hashKey && pm.hashRing.virtualNodes == 160
      ensures pm.replicationFactor == if replicationFactor < 1 then 3 else replicationFactor
      ensures pm.hashRing.history == if enabled then Loading(ids) else []
    {
      var factor := if replicationFactor == 0 then 3 else replicationFactor;
      pm := new PartitionManager(enabled, factor, hashKey);
      for i := 0 to |ids|
        invariant pm.Valid() && pm.enabled == enabled
        invariant pm.replicationFactor == if replicationFactor < 1 then 3 else replicationFactor
        invariant pm.hashRing.history == if enabled then Loading(ids[..i]) else []
      {
        pm.AddNode(ids[i]);
        assert Loading(ids[..i + 1]) == Loading(ids[..i]) + [Add(ids[i])];
      }
      assert ids[..|ids|] == ids;
    }

    method AddNode(nodeID: int)
      requires Valid()
      modifies hashRing
      ensures Valid()
      ensures hashRing.history == old(hashRing.history) + if enabled then [Add(nodeID)] else []
      ensures !enabled ==> hashRing.State() == old(hashRing.State())
    {
      if enabled {
        hashRing.AddNode(nodeID);
      }
    }

    method RemoveNode(nodeID: int)
      requires Valid()
      modifies hashRing
      ensures Valid()
      ensures hashRing.history == old(hashRing.history) + if enabled then [Remove(nodeID)] else []
      ensures !enabled ==> hashRing.State() == old(hashRing.State())
    {
      if enabled {
        hashRing.RemoveNode(nodeID);
      }
    }

    method SetEnabled(enabled: bool)
      requires Valid()
      modifies this`enabled
      ensures Valid() && this.enabled == enabled
    {
      this.enabled := enabled;
    }

    method SetReplicationFactor(factor: int)
      requires Valid()
      modifies this`replicationFactor
      ensures Valid() && replicationFactor == if factor < 1 then 1 else factor
      ensures forall key :: old(replicationFactor) <= replicationFactor ==> old(Owners(key)) <= Owners(key)
      ensures forall key :: replicationFactor <= old(replicationFactor) ==> Owners(key) <= old(Owners(key))
    {
      replicationFactor := if factor < 1 then 1 else factor;
      var l, ops := hashRing.Layout(), hashRing.history;
      InvariantAlways(l, ops);
      forall key: string, a: nat, b: nat | a <= b ensures OwnersAfter(l, ops, key, a) <= OwnersAfter(l, ops, key, b) {
        NodesForMonotone(l, Run(l, ops), key, a, b);
      }
    }

    /** The empty list stands for "all nodes" when partitioning is off. */
    method GetPartitionOwners(key: string) returns (owners: seq<int>)
      requires Valid()
      ensures owners == if enabled then Owners(key) else []
      ensures enabled ==> (owners == [] <==> hashRing.ring == map[])
      ensures enabled ==> |owners| == (if replicationFactor < |hashRing.ring.Values| then replicationFactor
                                       else |hashRing.ring.Values|)
      ensures enabled ==> NearestOnRing(hashRing.State(), hashRing.hashKey(key), owners)
      ensures enabled && Collisionless(hashRing) ==>
                forall nearest ::
                  NearestFirst(hashRing.Layout(), hashRing.physicalNodes, hashRing.hashKey(key), nearest) ==>
                  owners == nearest[..Min(replicationFactor, |nearest|)]
      ensures |owners| <= replicationFactor && Distinct(owners) && Elements(owners) <= hashRing.physicalNodes
    {
      if !enabled {
        return [];
      }
      owners := hashRing.GetNodes(key, replicationFactor);
      var l, s := hashRing.Layout(), hashRing.State();
      NoOwnersIffEmpty(l, s, key, replicationFactor);
      NodesForAreCurrent(l, s, key, replicationFactor);
      if Collisionless(hashRing) {
        forall nearest | NearestFirst(l, hashRing.physicalNodes, hashRing.hashKey(key), nearest)
          ensures owners == nearest[..Min(replicationFactor, |nearest|)]
        {
          OwnersAreNearest(hashRing, key, replicationFactor, nearest);
        }
      }
    }

    /** Everybody counts as an owner when the owner list is empty. */
    method IsOwner(nodeID: int, key: string) returns (owner: bool)
      requires Valid()
      ensures owner <==> !enabled || hashRing.ring == map[] || nodeID in Owners(key)
    {
      var owners := GetPartitionOwners(key);
      if |owners| == 0 {
        return true;
      }
      owner := Contains(owners, nodeID);
    }

    static method Contains(owners: seq<int>, nodeID: int) returns (found: bool)
      ensures found <==> nodeID in owners
    {
      for i := 0 to |owners|
        invariant nodeID !in owners[..i]
      {
        if owners[i] == nodeID {
          return true;
        }
      }
      return false;
    }

    /** On a ring with nodes exactly the node that GetNode names is primary. */
    method IsPrimaryOwner(nodeID: int, key: string) returns (primary: bool)
      requires Valid()
      ensures !enabled || hashRing.ring == map[] ==> (primary <==> nodeID == 1)
      ensures enabled && hashRing.ring != map[] ==> (primary <==> nodeID == hashRing.Nearest(key))
    {
      var owners := GetPartitionOwners(key);
      if |owners| == 0 {
        return nodeID == 1;
      }
      var l, s := hashRing.Layout(), hashRing.State();
      InvariantAlways(l, hashRing.history);
      if hashRing.ring != map[] {
        NonemptyList(s);
        HeadOfPreference(s, hashRing.hashKey(key));
      }
      return owners[0] == nodeID;
    }
  }

  /** Partitioning switched on after set-up: the ring is empty, and with it every owner list,
      exactly when partitioning was off during set-up or no node was configured. */
  method SwitchOnAfterSetUp(enabled: bool, factor: int, ids: seq<int>, hashKey: string -> Hash)
    returns (pm: PartitionManager)
    ensures fresh(pm) && fresh(pm.hashRing) && pm.Valid() && pm.enabled
    ensures pm.hashRing.ring == map[] <==> !enabled || ids == []
    ensures forall key :: pm.Owners(key) == [] <==> !enabled || ids == []
  {
    pm := PartitionManager.FromConfig(enabled, factor, ids, hashKey);
    pm.SetEnabled(true);
    var l, ops := pm.hashRing.Layout(), pm.hashRing.history;
    LoadedRing(l, ids);
    InvariantAlways(l, ops);
    forall key ensures pm.Owners(key) == [] <==> pm.hashRing.ring == map[] {
      NoOwnersIffEmpty(l, Run(l, ops), key, pm.replicationFactor);
    }
  }

  /** Two nodes that read the same configuration in different orders compute the same owners
      for every key, if the hash tells the labels of the configured nodes apart. */
  lemma LoadedManagersAgree(p: PartitionManager, q: PartitionManager, ids1: seq<int>, ids2: seq<int>, key: string)
    requires p.Valid() && q.Valid() && p.replicationFactor == q.replicationFactor
    requires p.hashRing.hashKey == q.hashRing.hashKey && p.hashRing.virtualNodes == q.hashRing.virtualNodes
    requires p.hashRing.history == Loading(ids1) && q.hashRing.history == Loading(ids2)
    requires Elements(ids1) == Elements(ids2) && Collisionless(p.hashRing)
    ensures p.Owners(key) == q.Owners(key)
  {
    LoadingNodes(ids1);
    LoadingNodes(ids2);
    RingsAgree(p.hashRing, q.hashRing);
    RunNodes(p.hashRing.Layout(), Loading(ids1));
    RunNodes(q.hashRing.Layout(), Loading(ids2));
  }
}
