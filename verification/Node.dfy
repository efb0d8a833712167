/** One node: its fields, and the handlers and requester code that update them in place. */
module Nodes {
  import opened Collections
  import opened RequestState
  import opened Replication
  import opened PartitionManager
  import opened RingTheorems
  import opened RicartAgrawala
  import MutualExclusion
  import Bully

  /** How the call to one other node ended before the requester stopped waiting. */
  datatype Outcome = Granted | Deferred | Dead | Pending

  function Higher(ids: seq<int>, id: int): (r: seq<int>)
    ensures forall v :: v in r <==> v in ids && v > id
  {
    if ids == [] then []
    else
      var n := |ids| - 1;
      assert ids == ids[..n] + [ids[n]];
      if ids[n] > id then Higher(ids[..n], id) + [ids[n]] else Higher(ids[..n], id)
  }

  /** Some call brought neither a grant nor the news that its node is dead. */
  ghost predicate Incomplete(outcomes: seq<Outcome>) {
    exists i :: 0 <= i < |outcomes| && (outcomes[i].Deferred? || outcomes[i].Pending?)
  }

  /** The outcomes of the calls to `others` are what i's participant has collected. */
  ghost predicate Collected(s: System, i: int, others: seq<int>, outcomes: seq<Outcome>)
    requires i in s.nodes && |outcomes| == |others|
  {
    forall k :: 0 <= k < |others| ==>
      && (outcomes[k].Granted? <==> others[k] in s.nodes[i].granted)
      && (outcomes[k].Dead? <==> others[k] in s.nodes[i].dead)
  }

  lemma CompleteMeansAll(s: System, i: int, others: seq<int>, outcomes: seq<Outcome>)
    requires i in s.nodes && |outcomes| == |others| && Collected(s, i, others, outcomes)
    ensures Incomplete(outcomes) <==> !(Elements(others) <= s.nodes[i].granted + s.nodes[i].dead)
  {
    var all := s.nodes[i].granted + s.nodes[i].dead;
    if Incomplete(outcomes) {
      var k :| 0 <= k < |outcomes| && (outcomes[k].Deferred? || outcomes[k].Pending?);
      assert others[k] in Elements(others) && others[k] !in all;
    } else {
      forall k | 0 <= k < |others| ensures others[k] in all {
        assert outcomes[k].Granted? || outcomes[k].Dead?;
      }
    }
  }

  /** The requester's two ways in are the two entry steps of the protocol: by count exactly
      when the outcomes are complete, and otherwise on timeout, if it has waited long enough. */
  lemma EntryIsAStep(r: Rules, s: System, i: int, others: seq<int>, outcomes: seq<Outcome>)
    requires MutualExclusion.Inv(s) && i in s.nodes && s.nodes[i].live && s.nodes[i].phase == Collecting
    requires Elements(others) == Others(s, i) && |outcomes| == |others| && Collected(s, i, others, outcomes)
    ensures Enabled(r, s, EnterByCount(i)) <==> !Incomplete(outcomes)
    ensures Enabled(r, s, EnterOnTimeout(i)) <==> Incomplete(outcomes) && Waited(r.wait, s, i)
  {
    MutualExclusion.CountMeansAll(s, i);
    assert MutualExclusion.BackedOk(s.nodes[i], i, Others(s, i), s.sent);
    CompleteMeansAll(s, i, others, outcomes);
  }

  /** A store before and after a write that it gets or does not get. */
  function Overwritten(store: map<string, Item>, w: Write, got: bool): map<string, Item> {
    if got then store[w.key := w.item] else store
  }

  lemma OverwrittenHolds(store: map<string, Item>, w: Write, got: bool, key: string)
    ensures Lookup(Overwritten(store, w, got), key) == if got && key == w.key then Some(w.item) else Lookup(store, key)
  {
  }

  /** Node n's clock once the write was sent: merged with the item's timestamp once for each
      time it was named. */
  function Received(clock: int, w: Write, targets: seq<int>, reachable: set<int>, n: int): (r: int)
    ensures n !in targets || n !in reachable ==> r == clock
    ensures n in targets && n in reachable ==>
              r - multiset(targets)[n] == if clock < w.item.timestamp then w.item.timestamp else clock
  {
    if n in targets && n in reachable then Merged(clock, w.item.timestamp) + multiset(targets)[n] - 1 else clock
  }

  lemma SentOneMore(store: map<string, Item>, clock: int, w: Write,
                    targets: seq<int>, x: int, reachable: set<int>, n: int)
    ensures Overwritten(store, w, n in targets + [x] && n in reachable) ==
            Overwritten(Overwritten(store, w, n in targets && n in reachable), w, n == x && x in reachable)
    ensures Received(clock, w, targets + [x], reachable, n) ==
            if n == x && x in reachable then Merged(Received(clock, w, targets, reachable, n), w.item.timestamp)
            else Received(clock, w, targets, reachable, n)
  {
    assert n in targets + [x] <==> n in targets || n == x;
  }

  /** A node named once merges its clock once, as the protocol's `Observe` does. */
  lemma ReceivedOnce(clock: int, w: Write, targets: seq<int>, reachable: set<int>, n: int)
    requires Distinct(targets)
    ensures Received(clock, w, targets, reachable, n) ==
            if n in targets && n in reachable then Merged(clock, w.item.timestamp) else clock
  {
    if n in targets {
      DistinctOnce(targets, n);
    }
  }

  /** Higher IDs are kept entry by entry and in order. */
  lemma {:induction false} HigherSplits(a: seq<int>, b: seq<int>, id: int)
    ensures Higher(a + b, id) == Higher(a, id) + Higher(b, id)
  {
    if b == [] {
      assert a + b == a;
    } else {
      HigherSplits(a, b[..|b| - 1], id);
      PrefixOfSum(a, b);
    }
  }

  lemma HigherOne(v: int, id: int)
    ensures Higher([v], id) == if v > id then [v] else []
  {
    assert [v][..0] == [];
  }

  class Node {
    const id: int
    const config: seq<int>
    const partitionMgr: PartitionManager
    var dataStore: map<string, Item>
    var lamportClock: int
    var leaderID: int
    var isLeader: bool
    var requestingCS: bool
    var requestTime: int
    var deferredQueue: seq<Request>

    /** What mutual exclusion sees of the node. */
    function Requests(): State
      reads this
    {
      State(lamportClock, requestingCS, requestTime, deferredQueue)
    }

    /** Where keys live according to this node's partition manager. */
    ghost function Sharing(): Config
      reads this, partitionMgr, partitionMgr.hashRing
      requires partitionMgr.Valid()
    {
      var l, ops := partitionMgr.hashRing.Layout(), partitionMgr.hashRing.history;
      var factor := partitionMgr.replicationFactor;
      Config(config, if partitionMgr.enabled then Partitioned(key => OwnersAfter(l, ops, key, factor)) else Everywhere)
    }

    /** A participant of the election with the leader this node knows. */
    function Seen(p: Bully.Peer): Bully.Peer
      reads this
    {
      p.(leader := leaderID, isLeader := isLeader)
    }

    constructor (id: int, config: seq<int>, partitionMgr: PartitionManager)
      ensures this.id == id && this.config == config && this.partitionMgr == partitionMgr
      ensures Requests() == INITIAL && dataStore == map[] && leaderID == -1 && !isLeader
    {
      this.id, this.config, this.partitionMgr := id, config, partitionMgr;
      dataStore, lamportClock, leaderID, isLeader := map[], 0, -1, false;
      requestingCS, requestTime, deferredQueue := false, 0, [];
    }

    // ----- Lamport clock -----

    method IncrementClock() returns (now: int)
      modifies this`lamportClock
      ensures now == lamportClock == old(lamportClock) + 1
    {
      lamportClock := lamportClock + 1;
      return lamportClock;
    }

    method UpdateClock(receivedTime: int) returns (now: int)
      modifies this`lamportClock
      ensures now == lamportClock == Merged(old(lamportClock), receivedTime)
    {
      if receivedTime > lamportClock {
        lamportClock := receivedTime;
      }
      lamportClock := lamportClock + 1;
      return lamportClock;
    }

    // ----- Mutual exclusion, responder -----

    /** The two steps of the handler in sequence: merge the clocks, then decide. */
    method RequestCS(args: Request) returns (granted: bool)
      modifies this`lamportClock, this`deferredQueue
      ensures Requests() == Decided(Observed(old(Requests()), args.timestamp), id, args)
      ensures granted <==> !(requestingCS && (args.timestamp > requestTime ||
                                              (args.timestamp == requestTime && args.nodeID > id)))
      ensures deferredQueue == if granted then old(deferredQueue) else old(deferredQueue) + [args]
      ensures lamportClock == Merged(old(lamportClock), args.timestamp)
    {
      var _ := UpdateClock(args.timestamp);
      var shouldDefer := false;
      if requestingCS {
        if args.timestamp > requestTime {
          shouldDefer := true;
        } else if args.timestamp == requestTime {
          if args.nodeID > id {
            shouldDefer := true;
          }
        }
      }
      if shouldDefer {
        deferredQueue := deferredQueue + [args];
      }
      return !shouldDefer;
    }

    // ----- Mutual exclusion, requester -----

    /** Ask, collect what the calls brought, and enter: by count when all others granted or
        died, otherwise when the wait for deferred replies times out. Entry never fails. */
    method RequestCriticalSection(outcomes: seq<Outcome>) returns (entered: bool, forced: bool)
      requires |outcomes| == |Without(config, id)|
      modifies this`lamportClock, this`requestingCS, this`requestTime
      ensures Requests() == Began(old(Requests()))
      ensures requestingCS && requestTime == lamportClock == old(lamportClock) + 1
      ensures entered
      ensures forced <==> Incomplete(outcomes)
    {
      requestingCS := true;
      requestTime := IncrementClock();
      var otherNodes := GetOtherNodes();
      var expectedReplies := |otherNodes|;
      if expectedReplies == 0 {
        return true, false;
      }
      var finalGranted, finalDead := CountReplies(outcomes);
      var canEnter := finalGranted + finalDead >= expectedReplies;
      if canEnter {
        return true, false;
      }
      entered, forced := WaitForDeferredReplies(expectedReplies - finalGranted - finalDead);
    }

    /** There is no callback for late replies: after the timeout entry is forced. */
    static method WaitForDeferredReplies(remaining: int) returns (entered: bool, timedOut: bool)
      ensures entered && (timedOut <==> remaining > 0)
    {
      if remaining <= 0 {
        return true, false;
      }
      return true, true;
    }

    static method CountReplies(outcomes: seq<Outcome>) returns (granted: nat, dead: nat)
      ensures granted + dead <= |outcomes|
      ensures granted + dead == |outcomes| <==>
              forall i :: 0 <= i < |outcomes| ==> outcomes[i].Granted? || outcomes[i].Dead?
      ensures granted == multiset(outcomes)[Granted] && dead == multiset(outcomes)[Dead]
    {
      granted, dead := 0, 0;
      for i := 0 to |outcomes|
        invariant granted == multiset(outcomes[..i])[Granted] && dead == multiset(outcomes[..i])[Dead]
        invariant granted + dead <= i
        invariant granted + dead == i <==> forall j :: 0 <= j < i ==> outcomes[j].Granted? || outcomes[j].Dead?
      {
        assert outcomes[..i + 1] == outcomes[..i] + [outcomes[i]];
        if outcomes[i] == Granted {
          granted := granted + 1;
        } else if outcomes[i] == Dead {
          dead := dead + 1;
        }
      }
      assert outcomes[..|outcomes|] == outcomes;
    }

    /** Drop the request and its queue together; one deferred reply is started for every
        queue entry, in order, and one notification for every other node. */
    method ReleaseCriticalSection() returns (replies: seq<int>, notifications: seq<int>)
      modifies this`requestingCS, this`deferredQueue
      ensures Requests() == Released(old(Requests()))
      ensures !requestingCS && deferredQueue == []
      ensures |replies| == |old(deferredQueue)|
      ensures forall i :: 0 <= i < |replies| ==> replies[i] == old(deferredQueue[i].nodeID)
      ensures notifications == Without(config, id)
    {
      requestingCS := false;
      var queue := deferredQueue;
      deferredQueue := [];
      replies := [];
      for i := 0 to |queue|
        invariant replies == Senders(queue[..i])
      {
        replies := replies + [queue[i].nodeID];
      }
      assert queue[..|queue|] == queue;
      notifications := GetOtherNodes();
    }

    /** The call that stands for a deferred reply: a request with a fresh timestamp. */
    method DeferredReplyArgs() returns (args: Request)
      modifies this`lamportClock
      ensures lamportClock == old(lamportClock) + 1 && args == Request(id, lamportClock)
    {
      var now := IncrementClock();
      return Request(id, now);
    }

    // ----- Node lists -----

    method GetOtherNodes() returns (others: seq<int>)
      ensures others == Without(config, id)
    {
      others := [];
      for i := 0 to |config|
        invariant others == Without(config[..i], id)
      {
        assert config[..i + 1][..i] == config[..i];
        if config[i] != id {
          others := others + [config[i]];
        }
      }
      assert config[..|config|] == config;
    }

    method GetHigherNodes() returns (higher: seq<int>)
      ensures higher == Higher(config, id)
    {
      higher := [];
      for i := 0 to |config|
        invariant higher == Higher(config[..i], id)
      {
        assert config[..i + 1][..i] == config[..i];
        if config[i] > id {
          higher := higher + [config[i]];
        }
      }
      assert config[..|config|] == config;
    }

    // ----- Leadership -----

    method SetLeader(leader: int)
      modifies this`leaderID, this`isLeader
      ensures leaderID == leader && (isLeader <==> leader == id)
    {
      leaderID := leader;
      isLeader := leader == id;
    }

    /** An election message is acknowledged and nothing else: no election starts here. */
    method Election(candidateID: int, timestamp: int) returns (acknowledged: bool, nodeID: int)
      modifies this`lamportClock
      ensures acknowledged && nodeID == id && lamportClock == Merged(old(lamportClock), timestamp)
    {
      var _ := UpdateClock(timestamp);
      return true, id;
    }

    /** An announcement is believed unconditionally, whoever sends it. */
    method Coordinator(leader: int, timestamp: int) returns (acknowledged: bool)
      modifies this`lamportClock, this`leaderID, this`isLeader
      ensures acknowledged && lamportClock == Merged(old(lamportClock), timestamp)
      ensures leaderID == leader && (isLeader <==> leader == id)
      ensures forall p :: Seen(p) == Bully.SetLeader(p, id, leader)
    {
      var _ := UpdateClock(timestamp);
      SetLeader(leader);
      return true;
    }

    // ----- Replicated writes -----

    /** `Put` as a replica receives it: overwrite without comparing timestamps. */
    method PutReplica(w: Write)
      modifies this`lamportClock, this`dataStore
      ensures dataStore == old(dataStore)[w.key := w.item]
      ensures lamportClock == Merged(old(lamportClock), w.item.timestamp)
    {
      var _ := UpdateClock(w.item.timestamp);
      dataStore := dataStore[w.key := w.item];
    }

    method TargetNodes(key: string) returns (targets: seq<int>)
      requires partitionMgr.Valid()
      ensures targets == Targets(Sharing(), id, key)
      ensures !partitionMgr.enabled ==> targets == Without(config, id)
      ensures partitionMgr.enabled ==> targets == Without(partitionMgr.Owners(key), id)
    {
      if partitionMgr.enabled {
        var owners := partitionMgr.GetPartitionOwners(key);
        targets := WithoutMyself(owners);
      } else {
        targets := GetOtherNodes();
      }
    }

    /** A node does not send to itself: it has stored the item already. */
    method WithoutMyself(owners: seq<int>) returns (targets: seq<int>)
      ensures targets == Without(owners, id)
    {
      targets := [];
      for i := 0 to |owners|
        invariant targets == Without(owners[..i], id)
      {
        assert owners[..i + 1][..i] == owners[..i];
        if owners[i] != id {
          targets := targets + [owners[i]];
        }
      }
      assert owners[..|owners|] == owners;
    }

    /** Send a write to the key's other holders; a node that cannot be reached is skipped
        and reported. Of the other nodes only stores and clocks change. */
    method ReplicateToPartitionNodes(w: Write, peers: map<int, Node>, reachable: set<int>) returns (ok: seq<bool>)
      requires partitionMgr.Valid()
      requires forall n :: n in Targets(Sharing(), id, w.key) ==> n in peers
      requires forall n, m :: n in peers && m in peers && n != m ==> peers[n] != peers[m]
      modifies (set n | n in peers && n != id :: peers[n])`dataStore
      modifies (set n | n in peers && n != id :: peers[n])`lamportClock
      ensures var targets := old(Targets(Sharing(), id, w.key));
              && |ok| == |targets|
              && (forall i :: 0 <= i < |targets| ==> (ok[i] <==> targets[i] in reachable))
              && forall n :: n in peers ==>
                   && peers[n].dataStore == Overwritten(old(peers[n].dataStore), w, n in targets && n in reachable)
                   && peers[n].lamportClock == Received(old(peers[n].lamportClock), w, targets, reachable, n)
    {
      var targets := TargetNodes(w.key);
      ok := SendToAll(targets, w, peers, reachable);
    }

    /** The sending loop: one target after the other. */
    method SendToAll(targets: seq<int>, w: Write, peers: map<int, Node>, reachable: set<int>) returns (ok: seq<bool>)
      requires forall n :: n in targets ==> n in peers && n != id
      requires forall n, m :: n in peers && m in peers && n != m ==> peers[n] != peers[m]
      modifies (set n | n in peers && n != id :: peers[n])`dataStore
      modifies (set n | n in peers && n != id :: peers[n])`lamportClock
      ensures |ok| == |targets| && forall i :: 0 <= i < |targets| ==> (ok[i] <==> targets[i] in reachable)
      ensures forall n :: n in peers ==>
                peers[n].dataStore == Overwritten(old(peers[n].dataStore), w, n in targets && n in reachable)
      ensures forall n :: n in peers ==>
                peers[n].lamportClock == Received(old(peers[n].lamportClock), w, targets, reachable, n)
    {
      ok := [];
      for i := 0 to |targets|
        invariant |ok| == i && forall j :: 0 <= j < i ==> (ok[j] <==> targets[j] in reachable)
        invariant forall n :: n in peers ==>
          peers[n].dataStore == Overwritten(old(peers[n].dataStore), w, n in targets[..i] && n in reachable)
        invariant forall n :: n in peers ==>
          peers[n].lamportClock == Received(old(peers[n].lamportClock), w, targets[..i], reachable, n)
      {
        var nodeID := targets[i];
        assert nodeID in targets;
        if nodeID in reachable {
          peers[nodeID].PutReplica(w);
        }
        ok := ok + [nodeID in reachable];
        assert targets[..i + 1] == targets[..i] + [nodeID];
        forall n | n in peers
          ensures peers[n].dataStore == Overwritten(old(peers[n].dataStore), w, n in targets[..i + 1] && n in reachable)
          ensures peers[n].lamportClock == Received(old(peers[n].lamportClock), w, targets[..i + 1], reachable, n)
        {
          SentOneMore(old(peers[n].dataStore), old(peers[n].lamportClock), w, targets[..i], nodeID, reachable, n);
        }
      }
      assert targets[..|targets|] == targets;
    }

    /** The body of `MutexPut`'s critical section. When every target is reachable, all holders
        of the key (and the writer) end up with the item, and no other store changes; nothing
        else changes but the clocks of the nodes that were reached, once per call. */
    method StoreAndReplicate(w: Write, peers: map<int, Node>, reachable: set<int>)
      requires partitionMgr.Valid()
      requires forall n :: n in Targets(Sharing(), id, w.key) ==> n in peers
      requires id in peers && peers[id] == this
      requires forall n, m :: n in peers && m in peers && n != m ==> peers[n] != peers[m]
      modifies this`dataStore
      modifies (set n | n in peers && n != id :: peers[n])`dataStore
      modifies (set n | n in peers && n != id :: peers[n])`lamportClock
      ensures forall n :: n in peers ==>
                if n == id || (n in reachable &&
                               if partitionMgr.enabled then n in partitionMgr.Owners(w.key) else n in config)
                then peers[n].dataStore == old(peers[n].dataStore)[w.key := w.item]
                else peers[n].dataStore == old(peers[n].dataStore)
      ensures var holders := old(Holders(Sharing(), w.key));
              forall n :: n in peers ==>
                peers[n].dataStore ==
                Overwritten(old(peers[n].dataStore), w, n == id || (n in holders && n in reachable))
      ensures var targets := old(Targets(Sharing(), id, w.key));
              forall n :: n in peers ==>
                peers[n].lamportClock == Received(old(peers[n].lamportClock), w, targets, reachable, n)
    {
      ghost var targets, holders := Targets(Sharing(), id, w.key), Holders(Sharing(), w.key);
      assert forall n :: n in targets <==> n in holders && n != id;
      dataStore := dataStore[w.key := w.item];
      var _ := ReplicateToPartitionNodes(w, peers, reachable);
    }
  }
}
