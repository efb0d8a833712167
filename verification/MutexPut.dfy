/** The critical section of `MutexPut` on node objects: its effect is that of the events of the
    replication model, so what holds of the replicas after every history holds of the objects. */
module MutexPut {
  import opened Collections
  import opened RequestState
  import opened RicartAgrawala
  import opened Nodes
  import opened Replication
  import MutualExclusion

  // ----- The events of a section -----

  function Repeated(i: int, k: nat): (r: seq<Event>)
    ensures |r| == k && forall j :: 0 <= j < k ==> r[j] == ReplicateNext(i)
  {
    seq(k, j => ReplicateNext(i))
  }

  lemma RepeatedMore(events: seq<Event>, i: int, k: nat)
    ensures events + Repeated(i, k) + [ReplicateNext(i)] == events + Repeated(i, k + 1)
    ensures events + Repeated(i, 0) == events
  {
  }

  lemma OneMore(c: Config, events: seq<Event>, x: Cluster, e: Event)
    requires History(c, events) == Some(x) && Possible(x, e)
    ensures History(c, events + [e]) == Some(Replication.After(c, x, e))
  {
    assert (events + [e])[..|events|] == events;
  }

  /** What a node holds of data and protocol state. */
  ghost predicate NodeIs(x: Cluster, n: int, store: map<string, Item>, state: State) {
    n in x.stores && n in x.protocol.nodes && x.stores[n] == store && x.protocol.nodes[n].state == state
  }

  /** Node n before and after a write has been sent, or not, to it. */
  ghost predicate NodeGot(x: Cluster, y: Cluster, n: int, w: Write, got: bool)
    requires n in x.stores && n in x.protocol.nodes
  {
    var state := x.protocol.nodes[n].state;
    NodeIs(y, n, Overwritten(x.stores[n], w, got), if got then Observed(state, w.item.timestamp) else state)
  }

  /** From x to y the write was sent to the nodes `sent`, and nobody entered or left. */
  ghost predicate Sent(c: Config, x: Cluster, y: Cluster, w: Write, sent: seq<int>) {
    && Consistent(c, x) && Consistent(c, y) && y.completed == x.completed && SamePhases(x, y)
    && forall n :: n in x.stores ==> NodeGot(x, y, n, w, n in sent)
  }

  /** What every history guarantees while i is in its section. */
  ghost predicate SectionOk(c: Config, x: Cluster, i: int) {
    && Consistent(c, x) && Writing(x, i)
    && (forall n :: n in x.protocol.nodes ==> x.protocol.nodes[n].live)
    && (x.jobs[i].stored ==>
          Distinct(x.jobs[i].remaining) && forall n :: n in x.jobs[i].remaining ==> n in x.stores && n != i)
  }

  lemma SectionIsOk(c: Config, events: seq<Event>, x: Cluster, i: int)
    requires WellPlaced(c) && History(c, events) == Some(x) && Writing(x, i)
    ensures SectionOk(c, x, i)
  {
    ClusterInvAlways(c, events);
    assert JobOk(c, x, i);
    forall n | n in x.protocol.nodes ensures x.protocol.nodes[n].live {
      assert JobOk(c, x, n);
    }
    if x.jobs[i].stored {
      forall n | n in x.jobs[i].remaining ensures n in x.stores && n != i {
        assert n in Elements(x.jobs[i].remaining);
      }
    }
  }

  lemma NextIsPossible(c: Config, y: Cluster, i: int)
    requires SectionOk(c, y, i) && y.jobs[i].stored && y.jobs[i].remaining != []
    ensures Possible(y, ReplicateNext(i)) && y.jobs[i].remaining[0] in y.stores
    ensures var z, job, next := Replication.After(c, y, ReplicateNext(i)), y.jobs[i], y.jobs[i].remaining[0];
            && z.protocol == Apply(y.protocol, Observe(next, job.write.item.timestamp))
            && z.stores == y.stores[next := Overwritten(y.stores[next], job.write, true)]
            && z.jobs == y.jobs[i := job.(remaining := job.remaining[1..])] && z.completed == y.completed
  {
    var next := y.jobs[i].remaining[0];
    assert next in y.jobs[i].remaining;
    assert next in y.stores;
  }

  /** One replication: only the next target changes. */
  lemma NextGets(c: Config, y: Cluster, z: Cluster, w: Write, next: int)
    requires Consistent(c, y) && next in y.stores && z.jobs.Keys == y.jobs.Keys
    requires z.protocol == Apply(y.protocol, Observe(next, w.item.timestamp))
    requires z.stores == y.stores[next := Overwritten(y.stores[next], w, true)]
    ensures Consistent(c, z) && SamePhases(y, z)
    ensures forall n :: n in y.stores ==> NodeGot(y, z, n, w, n == next)
  {
    QuietStep(y.protocol.nodes[next], Observe(next, w.item.timestamp));
  }

  ghost predicate SamePhases(x: Cluster, y: Cluster) {
    && x.protocol.nodes.Keys == y.protocol.nodes.Keys
    && forall n :: n in x.protocol.nodes ==>
         && y.protocol.nodes[n].live == x.protocol.nodes[n].live
         && y.protocol.nodes[n].phase == x.protocol.nodes[n].phase
  }

  lemma GotBoth(x: Cluster, y: Cluster, z: Cluster, n: int, w: Write, a: bool, b: bool)
    requires n in x.stores && n in x.protocol.nodes && n in y.stores && n in y.protocol.nodes
    requires NodeGot(x, y, n, w, a) && NodeGot(y, z, n, w, b) && !(a && b)
    ensures NodeGot(x, z, n, w, a || b)
  {
  }

  lemma SendNext(c: Config, x: Cluster, y: Cluster, z: Cluster, w: Write, sent: seq<int>, next: int)
    requires Sent(c, x, y, w, sent) && next !in sent
    requires Consistent(c, z) && z.completed == y.completed && SamePhases(y, z)
    requires forall n :: n in y.stores ==> NodeGot(y, z, n, w, n == next)
    ensures Sent(c, x, z, w, sent + [next])
  {
    forall n | n in x.stores ensures NodeGot(x, z, n, w, n in sent + [next]) {
      GotBoth(x, y, z, n, w, n in sent, n == next);
    }
  }

  /** From x the write has been sent to the first k targets; the others remain. */
  ghost predicate SentFirst(c: Config, x: Cluster, y: Cluster, i: int, w: Write, targets: seq<int>, k: nat)
    requires k <= |targets|
  {
    && Sent(c, x, y, w, targets[..k]) && Writing(y, i)
    && i in x.jobs && y.jobs == x.jobs[i := Job(w, true, targets[k..])]
  }

  lemma PrefixStep<T>(w: seq<T>, k: nat)
    requires k < |w|
    ensures w[..k] + [w[k]] == w[..k + 1] && w[k..][0] == w[k] && w[k..][1..] == w[k + 1..]
  {
  }

  lemma StillWriting(x: Cluster, y: Cluster, i: int)
    requires Writing(x, i) && SamePhases(x, y) && i in y.jobs && y.jobs[i].Job?
    ensures Writing(y, i)
  {
  }

  lemma OverwrittenTwice<K, V>(m: map<K, V>, k: K, a: V, b: V)
    ensures m[k := a][k := b] == m[k := b]
  {
  }

  lemma SendStep(c: Config, x: Cluster, y: Cluster, i: int, w: Write, targets: seq<int>, k: nat)
    requires k < |targets| && Distinct(targets)
    requires SectionOk(c, y, i) && SentFirst(c, x, y, i, w, targets, k)
    ensures Possible(y, ReplicateNext(i))
    ensures SentFirst(c, x, Replication.After(c, y, ReplicateNext(i)), i, w, targets, k + 1)
  {
    PrefixStep(targets, k);
    NextIsPossible(c, y, i);
    var z := Replication.After(c, y, ReplicateNext(i));
    NextGets(c, y, z, w, targets[k]);
    SendNext(c, x, y, z, w, targets[..k], targets[k]);
    OverwrittenTwice(x.jobs, i, Job(w, true, targets[k..]), Job(w, true, targets[k + 1..]));
    StillWriting(y, z, i);
  }

  /** After k replication steps the write has been sent to the first k targets. */
  lemma {:induction false} SendSome(c: Config, events: seq<Event>, x: Cluster,
                                    i: int, w: Write, targets: seq<int>, k: nat)
    returns (y: Cluster)
    requires WellPlaced(c) && History(c, events) == Some(x) && Consistent(c, x) && Distinct(targets)
    requires Writing(x, i) && x.jobs[i] == Job(w, true, targets) && k <= |targets|
    ensures History(c, events + Repeated(i, k)) == Some(y) && SentFirst(c, x, y, i, w, targets, k)
  {
    if k == 0 {
      RepeatedMore(events, i, 0);
      assert targets[0..] == targets;
      y := x;
    } else {
      var before := SendSome(c, events, x, i, w, targets, k - 1);
      var earlier := events + Repeated(i, k - 1);
      SectionIsOk(c, earlier, before, i);
      SendStep(c, x, before, i, w, targets, k - 1);
      OneMore(c, earlier, before, ReplicateNext(i));
      RepeatedMore(events, i, k - 1);
      y := Replication.After(c, before, ReplicateNext(i));
    }
  }

  /** Storing locally, sending to all targets, and leaving. */
  function SectionEvents(i: int, targets: nat): seq<Event> {
    [StoreLocally(i)] + Repeated(i, targets) + [PutEnd(i)]
  }

  lemma EventsAppended(events: seq<Event>, i: int, k: nat)
    ensures events + SectionEvents(i, k) == events + [StoreLocally(i)] + Repeated(i, k) + [PutEnd(i)]
  {
  }

  /** What a whole section has made of node n. */
  ghost predicate NodeAfterSection(c: Config, x: Cluster, y: Cluster, i: int, w: Write, n: int)
    requires n in x.stores && n in x.protocol.nodes
  {
    var state := x.protocol.nodes[n].state;
    if n == i then NodeIs(y, n, Overwritten(x.stores[n], w, true), Released(state))
    else NodeGot(x, y, n, w, n in Targets(c, i, w.key))
  }

  /** Nobody has entered, and i has left. */
  ghost predicate NobodyNew(x: Cluster, y: Cluster, i: int) {
    && x.protocol.nodes.Keys == y.protocol.nodes.Keys
    && forall n :: n in y.protocol.nodes && InSection(y.protocol, n) ==> n != i && InSection(x.protocol, n)
  }

  lemma StoreGets(c: Config, x: Cluster, i: int, w: Write)
    requires SectionOk(c, x, i) && x.jobs[i].write == w && !x.jobs[i].stored
    ensures Possible(x, StoreLocally(i))
    ensures var y := Replication.After(c, x, StoreLocally(i));
            && Consistent(c, y) && y.completed == x.completed && y.protocol == x.protocol
            && y.jobs == x.jobs[i := Job(w, true, Targets(c, i, w.key))] && Writing(y, i)
            && y.stores == x.stores[i := Overwritten(x.stores[i], w, true)]
  {
  }

  lemma EndLeaves(c: Config, y: Cluster, i: int, w: Write)
    requires Consistent(c, y) && Writing(y, i) && y.jobs[i] == Job(w, true, [])
    ensures Possible(y, PutEnd(i))
    ensures var z := Replication.After(c, y, PutEnd(i));
            && Consistent(c, z) && z.completed == y.completed + [w] && z.stores == y.stores
            && z.jobs == y.jobs[i := NoJob]
            && z.protocol.nodes == y.protocol.nodes[i := Moved(y.protocol.nodes[i], Leave(i))]
  {
  }

  /** i has left its section, and its write is completed. */
  ghost predicate Ended(sent: Cluster, y: Cluster, i: int, w: Write) {
    && i in sent.protocol.nodes
    && y.completed == sent.completed + [w] && y.stores == sent.stores
    && y.protocol.nodes == sent.protocol.nodes[i := Moved(sent.protocol.nodes[i], Leave(i))]
  }

  /** The rest of a section once the write is stored: send to the remaining targets and leave. */
  lemma FinishStored(c: Config, events: seq<Event>, x: Cluster, i: int, w: Write, targets: seq<int>)
    returns (sent: Cluster, y: Cluster)
    requires WellPlaced(c) && History(c, events) == Some(x) && Consistent(c, x) && Distinct(targets)
    requires Writing(x, i) && x.jobs[i] == Job(w, true, targets)
    ensures History(c, events + Repeated(i, |targets|) + [PutEnd(i)]) == Some(y)
    ensures Consistent(c, y) && Sent(c, x, sent, w, targets) && Ended(sent, y, i, w) && y.jobs == x.jobs[i := NoJob]
  {
    sent := SendRest(c, events, x, i, w, targets);
    EndLeaves(c, sent, i, w);
    OneMore(c, events + Repeated(i, |targets|), sent, PutEnd(i));
    OverwrittenTwice(x.jobs, i, Job(w, true, []), NoJob);
    y := Replication.After(c, sent, PutEnd(i));
  }

  lemma SendRest(c: Config, events: seq<Event>, x: Cluster, i: int, w: Write, targets: seq<int>)
    returns (sent: Cluster)
    requires WellPlaced(c) && History(c, events) == Some(x) && Consistent(c, x) && Distinct(targets)
    requires Writing(x, i) && x.jobs[i] == Job(w, true, targets)
    ensures History(c, events + Repeated(i, |targets|)) == Some(sent)
    ensures Sent(c, x, sent, w, targets) && Writing(sent, i) && sent.jobs == x.jobs[i := Job(w, true, [])]
  {
    sent := SendSome(c, events, x, i, w, targets, |targets|);
    assert targets[..|targets|] == targets && targets[|targets|..] == [];
  }

  /** y is x with the write stored by i, sent to all targets, and i out of its section. */
  ghost predicate SectionOver(c: Config, x: Cluster, stored: Cluster, sent: Cluster, y: Cluster, i: int, w: Write) {
    && Consistent(c, x) && Consistent(c, y) && i in x.stores && i in sent.protocol.nodes
    && stored.protocol == x.protocol && stored.completed == x.completed
    && stored.stores == x.stores[i := Overwritten(x.stores[i], w, true)]
    && Sent(c, stored, sent, w, Targets(c, i, w.key))
    && Ended(sent, y, i, w)
  }

  lemma SectionHistory(c: Config, events: seq<Event>, x: Cluster, i: int, w: Write)
    returns (stored: Cluster, sent: Cluster, y: Cluster)
    requires WellPlaced(c) && History(c, events) == Some(x) && Writing(x, i) && x.jobs[i] == Job(w, false, [])
    ensures History(c, events + SectionEvents(i, |Targets(c, i, w.key)|)) == Some(y)
    ensures SectionOver(c, x, stored, sent, y, i, w)
  {
    var targets, first := Targets(c, i, w.key), events + [StoreLocally(i)];
    TargetsFit(c, i, w.key);
    SectionIsOk(c, events, x, i);
    StoreGets(c, x, i, w);
    OneMore(c, events, x, StoreLocally(i));
    stored := Replication.After(c, x, StoreLocally(i));
    sent, y := FinishStored(c, first, stored, i, w, targets);
    EventsAppended(events, i, |targets|);
  }

  /** The section's events are possible, lead to y, and leave nobody inside. */
  lemma SectionRuns(c: Config, events: seq<Event>, x: Cluster, i: int, w: Write) returns (y: Cluster)
    requires WellPlaced(c) && History(c, events) == Some(x) && Writing(x, i) && x.jobs[i] == Job(w, false, [])
    ensures History(c, events + SectionEvents(i, |Targets(c, i, w.key)|)) == Some(y)
    ensures Consistent(c, x) && Consistent(c, y) && y.completed == x.completed + [w]
    ensures forall n :: n in x.stores ==> NodeAfterSection(c, x, y, i, w, n)
    ensures NobodyNew(x, y, i)
  {
    var stored, sent;
    stored, sent, y := SectionHistory(c, events, x, i, w);
    SectionEffect(c, x, stored, sent, y, i, w);
  }

  lemma SectionEffect(c: Config, x: Cluster, stored: Cluster, sent: Cluster, y: Cluster, i: int, w: Write)
    requires SectionOver(c, x, stored, sent, y, i, w)
    ensures y.completed == x.completed + [w] && NobodyNew(x, y, i)
    ensures forall n :: n in x.stores ==> NodeAfterSection(c, x, y, i, w, n)
  {
    forall n | n in x.stores ensures NodeAfterSection(c, x, y, i, w, n) {
      SectionGot(c, x, stored, sent, y, i, w, n);
    }
    NobodyEnters(x, sent, y, i);
  }

  lemma NobodyEnters(x: Cluster, sent: Cluster, y: Cluster, i: int)
    requires SamePhases(x, sent) && i in sent.protocol.nodes
    requires y.protocol.nodes == sent.protocol.nodes[i := Moved(sent.protocol.nodes[i], Leave(i))]
    ensures NobodyNew(x, y, i)
  {
  }

  lemma SectionGot(c: Config, x: Cluster, stored: Cluster, sent: Cluster, y: Cluster, i: int, w: Write, n: int)
    requires n in x.stores && n in x.protocol.nodes && stored.protocol == x.protocol && i in x.stores
    requires stored.stores == x.stores[i := Overwritten(x.stores[i], w, true)]
    requires i in sent.protocol.nodes && NodeGot(stored, sent, n, w, n in Targets(c, i, w.key))
    requires y.protocol.nodes == sent.protocol.nodes[i := Moved(sent.protocol.nodes[i], Leave(i))]
    requires y.stores == sent.stores
    ensures NodeAfterSection(c, x, y, i, w, n)
  {
  }

  // ----- The section on objects -----

  /** The objects hold the data and the protocol state of the cluster. */
  ghost predicate Mirrors(x: Cluster, peers: map<int, Node>)
    reads peers.Values
  {
    && peers.Keys == x.stores.Keys == x.protocol.nodes.Keys
    && forall n :: n in peers ==> peers[n].id == n && NodeIs(x, n, peers[n].dataStore, peers[n].Requests())
  }

  ghost predicate AllDifferent(peers: map<int, Node>) {
    forall n, m :: n in peers && m in peers && n != m ==> peers[n] != peers[m]
  }

  /** Every holder of every key holds the item of the last completed write to it. */
  ghost predicate AllAgree(c: Config, y: Cluster, peers: map<int, Node>)
    reads peers.Values
  {
    forall o, key :: o in Holders(c, key) ==> HoldsLast(y, peers, o, key)
  }

  ghost predicate HoldsLast(y: Cluster, peers: map<int, Node>, o: int, key: string)
    reads peers.Values
  {
    o in peers && Lookup(peers[o].dataStore, key) == LastWrite(y.completed, key)
  }

  lemma MirrorsAgree(c: Config, events: seq<Event>, y: Cluster, peers: map<int, Node>)
    requires WellPlaced(c) && History(c, events) == Some(y) && Mirrors(y, peers)
    requires forall n :: n in y.protocol.nodes ==> !InSection(y.protocol, n)
    ensures AllAgree(c, y, peers)
  {
    forall o, key | o in Holders(c, key) ensures HoldsLast(y, peers, o, key) {
      ReplicasAgree(c, events, y, key, o);
      assert NodeIs(y, o, peers[o].dataStore, peers[o].Requests());
    }
  }

  lemma NobodyElse(c: Config, events: seq<Event>, x: Cluster, y: Cluster, i: int)
    requires WellPlaced(c) && History(c, events) == Some(x) && Writing(x, i) && NobodyNew(x, y, i)
    ensures forall n :: n in y.protocol.nodes ==> !InSection(y.protocol, n)
  {
    ClusterInvAlways(c, events);
    MutualExclusion.BackedExcludes(x.protocol);
  }

  function StateAfter(state: State, w: Write, leaves: bool, got: bool): State {
    if leaves then Released(state) else if got then Observed(state, w.item.timestamp) else state
  }

  /** The body of the section and the release on the objects, all replicas being reachable. */
  method SendAndLeave(node: Node, w: Write, peers: map<int, Node>, reachable: set<int>)
    requires node.partitionMgr.Valid() && Distinct(Targets(node.Sharing(), node.id, w.key))
    requires forall n :: n in Targets(node.Sharing(), node.id, w.key) ==> n in peers
    requires AllDifferent(peers) && node.id in peers && peers[node.id] == node && peers.Keys <= reachable
    modifies peers.Values`dataStore, peers.Values`lamportClock, node`requestingCS, node`deferredQueue
    ensures forall n :: n in peers ==>
              if n == node.id ||
                 (if node.partitionMgr.enabled then n in node.partitionMgr.Owners(w.key) else n in node.config)
              then peers[n].dataStore == old(peers[n].dataStore)[w.key := w.item]
              else peers[n].dataStore == old(peers[n].dataStore)
    ensures var targets := old(Targets(node.Sharing(), node.id, w.key));
            forall n :: n in peers ==>
              && peers[n].dataStore == Overwritten(old(peers[n].dataStore), w, n == node.id || n in targets)
              && peers[n].Requests() == StateAfter(old(peers[n].Requests()), w, n == node.id, n in targets)
  {
    ghost var c := node.Sharing();
    ghost var targets := Targets(c, node.id, w.key);
    assert forall n :: n in targets <==> n in Holders(c, w.key) && n != node.id;
    node.StoreAndReplicate(w, peers, reachable);
    assert forall n :: n in peers ==> peers[n].requestTime == old(peers[n].requestTime);
    forall n | n in peers
      ensures peers[n].lamportClock == if n in targets then Merged(old(peers[n].lamportClock), w.item.timestamp)
                                       else old(peers[n].lamportClock)
    {
      ReceivedOnce(old(peers[n].lamportClock), w, targets, reachable, n);
    }
    var _, _ := node.ReleaseCriticalSection();
  }

  lemma NowMirrors(c: Config, x: Cluster, y: Cluster, i: int, w: Write, peers: map<int, Node>)
    requires Consistent(c, x) && Consistent(c, y) && peers.Keys == x.stores.Keys
    requires forall n :: n in x.stores ==> NodeAfterSection(c, x, y, i, w, n)
    requires forall n :: n in peers ==>
               && peers[n].id == n
               && peers[n].dataStore == Overwritten(x.stores[n], w, n == i || n in Targets(c, i, w.key))
               && peers[n].Requests() ==
                  StateAfter(x.protocol.nodes[n].state, w, n == i, n in Targets(c, i, w.key))
    ensures Mirrors(y, peers)
  {
    forall n | n in peers ensures NodeIs(y, n, peers[n].dataStore, peers[n].Requests()) {
      assert NodeAfterSection(c, x, y, i, w, n);
    }
  }

  /** The section of a `MutexPut` on the objects of a cluster: they end as the history extended
      by the section's events says, and with that all holders agree on the last write. */
  method CarryOutPut(node: Node, w: Write, peers: map<int, Node>, reachable: set<int>,
                     ghost c: Config, ghost events: seq<Event>, ghost x: Cluster)
    returns (ghost y: Cluster)
    requires node.partitionMgr.Valid() && c == node.Sharing() && WellPlaced(c)
    requires History(c, events) == Some(x) && Mirrors(x, peers) && AllDifferent(peers)
    requires node.id in peers && peers[node.id] == node && peers.Keys <= reachable
    requires Writing(x, node.id) && x.jobs[node.id] == Job(w, false, [])
    modifies peers.Values`dataStore, peers.Values`lamportClock, node`requestingCS, node`deferredQueue
    ensures History(c, events + SectionEvents(node.id, |Targets(c, node.id, w.key)|)) == Some(y)
    ensures Mirrors(y, peers) && y.completed == x.completed + [w] && AllAgree(c, y, peers)
    ensures forall n :: n in peers ==>
              if n == node.id ||
                 (if node.partitionMgr.enabled then n in node.partitionMgr.Owners(w.key) else n in node.config)
              then peers[n].dataStore == old(peers[n].dataStore)[w.key := w.item]
              else peers[n].dataStore == old(peers[n].dataStore)
  {
    ghost var i, targets := node.id, Targets(c, node.id, w.key);
    TargetsFit(c, i, w.key);
    y := SectionRuns(c, events, x, i, w);
    assert forall n :: n in targets ==> n in Elements(targets);
    SendAndLeave(node, w, peers, reachable);
    NowMirrors(c, x, y, i, w, peers);
    NobodyElse(c, events, x, y, i);
    MirrorsAgree(c, events + SectionEvents(i, |targets|), y, peers);
  }
}
