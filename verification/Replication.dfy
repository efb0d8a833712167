/** `MutexPut` on top of the mutual-exclusion protocol: what the replicas hold over all runs. */
module Replication {
  import opened Collections
  import opened RicartAgrawala
  import opened MutualExclusion
  import Ring
  import RingTheorems

  datatype Item = Item(value: seq<bv8>, timestamp: int)

  datatype Write = Write(key: string, item: Item)

  /** A `MutexPut` in progress on a node. */
  datatype Job = NoJob | Job(write: Write, stored: bool, remaining: seq<int>)

  datatype Placement = Everywhere | Partitioned(owners: string -> seq<int>)

  /** What all nodes share: the listed node IDs and where keys live. */
  datatype Config = Config(ids: seq<int>, placement: Placement)

  datatype Cluster = Cluster(
    protocol: System,
    stores: map<int, map<string, Item>>,
    jobs: map<int, Job>,
    completed: seq<Write>      // the writes whose critical section has ended, in that order
  )

  ghost predicate WellPlaced(c: Config) {
    && Distinct(c.ids)
    && (c.placement.Partitioned? ==>
          forall key :: Distinct((c.placement.owners)(key)) && Elements((c.placement.owners)(key)) <= Elements(c.ids))
  }

  /** The nodes that are to hold a key. */
  function Holders(c: Config, key: string): set<int> {
    match c.placement
    case Everywhere => Elements(c.ids)
    case Partitioned(owners) => Elements(owners(key))
  }

  /** The nodes a writer sends its item to, in order. */
  function Targets(c: Config, me: int, key: string): seq<int> {
    match c.placement
    case Everywhere => Without(c.ids, me)
    case Partitioned(owners) => Without(owners(key), me)
  }

  datatype Event =
    | Protocol(step: Step)
    | PutBegin(i: int, write: Write)
    | StoreLocally(i: int)
    | ReplicateNext(i: int)
    | PutEnd(i: int)

  function Start(c: Config): Cluster {
    Cluster(Init(Elements(c.ids)), map i | i in c.ids :: map[], map i | i in c.ids :: NoJob, [])
  }

  ghost predicate Consistent(c: Config, x: Cluster) {
    x.protocol.nodes.Keys == x.stores.Keys == x.jobs.Keys == Elements(c.ids)
  }

  /** The protocol step an event takes. */
  function StepOf(x: Cluster, e: Event): Step
    requires !e.StoreLocally?
    requires e.ReplicateNext? ==> e.i in x.jobs && x.jobs[e.i].Job? && x.jobs[e.i].remaining != []
  {
    match e
    case Protocol(step) => step
    case PutBegin(i, _) => Begin(i)
    case ReplicateNext(i) => Observe(x.jobs[i].remaining[0], x.jobs[i].write.item.timestamp)
    case PutEnd(i) => Leave(i)
  }

  /** All writes go through `MutexPut`, no node crashes, and replication calls succeed. */
  predicate Possible(x: Cluster, e: Event) {
    match e
    case Protocol(step) => !step.Begin? && !step.Leave? && !step.Crash? && Enabled(STRICT, x.protocol, step)
    case PutBegin(i, _) => Enabled(STRICT, x.protocol, Begin(i))
    case StoreLocally(i) => Writing(x, i) && !x.jobs[i].stored
    case ReplicateNext(i) =>
      Writing(x, i) && x.jobs[i].stored && x.jobs[i].remaining != [] &&
      Enabled(STRICT, x.protocol, StepOf(x, e))
    case PutEnd(i) => Writing(x, i) && x.jobs[i].stored && x.jobs[i].remaining == []
  }

  /** i is in its critical section with a write to carry out. */
  predicate Writing(x: Cluster, i: int) {
    i in x.protocol.nodes && InSection(x.protocol, i) && i in x.jobs && x.jobs[i].Job?
  }

  function Stored(x: Cluster, node: int, w: Write): map<int, map<string, Item>> {
    if node in x.stores then x.stores[node := x.stores[node][w.key := w.item]] else x.stores
  }

  function After(c: Config, x: Cluster, e: Event): Cluster
    requires Possible(x, e)
  {
    match e
    case Protocol(step) => x.(protocol := Apply(x.protocol, step))
    case PutBegin(i, w) => x.(protocol := Apply(x.protocol, Begin(i)), jobs := x.jobs[i := Job(w, false, [])])
    case StoreLocally(i) =>
      var job := x.jobs[i];
      x.(stores := Stored(x, i, job.write), jobs := x.jobs[i := Job(job.write, true, Targets(c, i, job.write.key))])
    case ReplicateNext(i) =>
      var job := x.jobs[i];
      x.(protocol := Apply(x.protocol, StepOf(x, e)),
         stores := Stored(x, job.remaining[0], job.write),
         jobs := x.jobs[i := job.(remaining := job.remaining[1..])])
    case PutEnd(i) =>
      x.(protocol := Apply(x.protocol, Leave(i)), jobs := x.jobs[i := NoJob],
         completed := x.completed + [x.jobs[i].write])
  }

  /** The cluster a sequence of events leads to, or None when some event was not possible. */
  function History(c: Config, events: seq<Event>): Option<Cluster> {
    if events == [] then Some(Start(c))
    else
      match History(c, events[..|events| - 1])
      case None => None
      case Some(x) =>
        var e := events[|events| - 1];
        if Possible(x, e) then Some(After(c, x, e)) else None
  }

  /** The item of the last completed write to a key. */
  function LastWrite(completed: seq<Write>, key: string): Option<Item> {
    if completed == [] then None
    else
      var w := completed[|completed| - 1];
      if w.key == key then Some(w.item) else LastWrite(completed[..|completed| - 1], key)
  }

  lemma {:induction false} LastWriteIsLast(completed: seq<Write>, key: string)
    ensures LastWrite(completed, key) == None <==> forall i :: 0 <= i < |completed| ==> completed[i].key != key
    ensures forall item :: LastWrite(completed, key) == Some(item) <==> IsLastWrite(completed, key, item)
  {
    if completed != [] {
      var n := |completed| - 1;
      LastWriteIsLast(completed[..n], key);
      if completed[n].key != key {
        forall item ensures IsLastWrite(completed[..n], key, item) <==> IsLastWrite(completed, key, item) {
          if IsLastWrite(completed[..n], key, item) {
            var i :| 0 <= i < n && WrittenLastAt(completed[..n], key, item, i);
            assert WrittenLastAt(completed, key, item, i);
          }
          if IsLastWrite(completed, key, item) {
            var i :| 0 <= i <= n && WrittenLastAt(completed, key, item, i);
            assert WrittenLastAt(completed[..n], key, item, i);
          }
        }
      } else {
        assert WrittenLastAt(completed, key, completed[n].item, n);
      }
    }
  }

  /** The i-th write wrote the item to the key, and no later one wrote to it. */
  ghost predicate WrittenLastAt(completed: seq<Write>, key: string, item: Item, i: nat) {
    && i < |completed| && completed[i] == Write(key, item)
    && forall j :: i < j < |completed| ==> completed[j].key != key
  }

  ghost predicate IsLastWrite(completed: seq<Write>, key: string, item: Item) {
    exists i :: 0 <= i < |completed| && WrittenLastAt(completed, key, item, i)
  }

  // ----- The invariant -----

  /** i's write to `key` is under way and has reached node o. */
  predicate Reached(x: Cluster, i: int, o: int, key: string) {
    Writing(x, i) && x.jobs[i].stored && x.jobs[i].write.key == key && o !in x.jobs[i].remaining
  }

  ghost predicate JobOk(c: Config, x: Cluster, i: int)
    requires i in x.protocol.nodes && i in x.jobs
  {
    var p, job := x.protocol.nodes[i], x.jobs[i];
    && p.live
    && (job.Job? <==> p.phase != Idle)
    && (job.Job? && job.stored ==>
          && p.phase == Critical && Distinct(job.remaining)
          && Elements(job.remaining) <= Elements(c.ids) - {i})
  }

  /** What node o must hold for `key`: the item under way if it has been reached, else the last completed one. */
  ghost predicate HoldsRight(x: Cluster, o: int, key: string)
    requires o in x.stores
  {
    && (forall i :: Reached(x, i, o, key) ==> Lookup(x.stores[o], key) == Some(x.jobs[i].write.item))
    && ((forall i :: !Reached(x, i, o, key)) ==> Lookup(x.stores[o], key) == LastWrite(x.completed, key))
  }

  ghost predicate ClusterInv(c: Config, x: Cluster) {
    && Consistent(c, x) && StrictInv(x.protocol)
    && (forall i :: i in x.jobs ==> JobOk(c, x, i))
    && (forall o, key :: o in Holders(c, key) && o in x.stores ==> HoldsRight(x, o, key))
  }

  lemma OnlyWriter(x: Cluster, i: int, k: int)
    requires StrictInv(x.protocol) && Writing(x, i) && Writing(x, k)
    ensures i == k
  {
    BackedExcludes(x.protocol);
  }

  lemma TargetsFit(c: Config, me: int, key: string)
    requires WellPlaced(c)
    ensures Distinct(Targets(c, me, key)) && Elements(Targets(c, me, key)) <= Elements(c.ids) - {me}
    ensures Elements(Targets(c, me, key)) == Holders(c, key) - {me} && Holders(c, key) <= Elements(c.ids)
  {
    var all := if c.placement.Everywhere? then c.ids else (c.placement.owners)(key);
    WithoutDistinct(all, me);
    forall n | n in Targets(c, me, key) ensures n in Elements(c.ids) - {me} {
      assert n in Elements(all);
    }
  }

  lemma ProtocolKept(c: Config, x: Cluster, e: Event)
    requires ClusterInv(c, x) && Possible(x, e)
    ensures Consistent(c, After(c, x, e)) && StrictInv(After(c, x, e).protocol)
  {
    if !e.StoreLocally? {
      StrictKept(STRICT, x.protocol, StepOf(x, e));
    }
  }

  lemma StepJobKept(c: Config, x: Cluster, step: Step, i: int)
    requires ClusterInv(c, x) && Possible(x, Protocol(step)) && i in x.jobs
    ensures i in Apply(x.protocol, step).nodes && JobOk(c, After(c, x, Protocol(step)), i)
  {
    assert JobOk(c, x, i);
    QuietStep(x.protocol.nodes[i], step);
  }

  lemma OtherJobKept(c: Config, x: Cluster, e: Event, i: int)
    requires ClusterInv(c, x) && Possible(x, e) && i in x.jobs && !e.Protocol? && e.i != i
    ensures i in After(c, x, e).protocol.nodes && JobOk(c, After(c, x, e), i)
  {
    assert JobOk(c, x, i);
  }

  lemma OwnJobKept(c: Config, x: Cluster, e: Event)
    requires WellPlaced(c) && ClusterInv(c, x) && Possible(x, e) && !e.Protocol?
    ensures e.i in After(c, x, e).protocol.nodes && e.i in After(c, x, e).jobs && JobOk(c, After(c, x, e), e.i)
  {
    assert JobOk(c, x, e.i);
    if e.StoreLocally? {
      TargetsFit(c, e.i, x.jobs[e.i].write.key);
    } else if e.ReplicateNext? {
      var r := x.jobs[e.i].remaining;
      assert Elements(r[1..]) <= Elements(r);
    }
  }

  lemma JobsKept(c: Config, x: Cluster, e: Event)
    requires WellPlaced(c) && ClusterInv(c, x) && Possible(x, e)
    ensures Consistent(c, After(c, x, e)) && StrictInv(After(c, x, e).protocol)
    ensures forall i :: i in After(c, x, e).jobs ==> JobOk(c, After(c, x, e), i)
  {
    ProtocolKept(c, x, e);
    forall i | i in After(c, x, e).jobs ensures JobOk(c, After(c, x, e), i) {
      if e.Protocol? {
        StepJobKept(c, x, e.step, i);
      } else if e.i != i {
        OtherJobKept(c, x, e, i);
      } else {
        OwnJobKept(c, x, e);
      }
    }
  }

  /** Same store, same completed writes, same writes reaching o: the same contents are right. */
  lemma HoldsRightFrame(x: Cluster, t: Cluster, o: int, key: string)
    requires o in x.stores && o in t.stores && HoldsRight(x, o, key)
    requires t.stores[o] == x.stores[o] && t.completed == x.completed
    requires forall i :: Reached(t, i, o, key) <==> Reached(x, i, o, key)
    requires forall i :: Reached(t, i, o, key) ==> t.jobs[i].write == x.jobs[i].write
    ensures HoldsRight(t, o, key)
  {
  }

  lemma StepReachesNobody(c: Config, x: Cluster, step: Step, i: int, o: int, key: string)
    requires ClusterInv(c, x) && Possible(x, Protocol(step))
    ensures Reached(After(c, x, Protocol(step)), i, o, key) <==> Reached(x, i, o, key)
  {
    if i in x.jobs {
      assert JobOk(c, x, i);
      QuietStep(x.protocol.nodes[i], step);
    }
  }

  lemma BeginReachesNobody(c: Config, x: Cluster, e: Event, i: int, o: int, key: string)
    requires ClusterInv(c, x) && Possible(x, e) && e.PutBegin?
    ensures Reached(After(c, x, e), i, o, key) <==> Reached(x, i, o, key)
    ensures Reached(After(c, x, e), i, o, key) ==> After(c, x, e).jobs[i] == x.jobs[i]
  {
    if i in x.jobs {
      assert JobOk(c, x, i);
    }
  }

  /** Steps of the protocol itself move no data and reach nobody new. */
  lemma ProtocolHoldsRight(c: Config, x: Cluster, e: Event, o: int, key: string)
    requires ClusterInv(c, x) && Possible(x, e) && (e.Protocol? || e.PutBegin?)
    requires o in x.stores && HoldsRight(x, o, key)
    ensures HoldsRight(After(c, x, e), o, key)
  {
    var t := After(c, x, e);
    forall i
      ensures Reached(t, i, o, key) <==> Reached(x, i, o, key)
      ensures Reached(t, i, o, key) ==> t.jobs[i].write == x.jobs[i].write
    {
      if e.Protocol? {
        StepReachesNobody(c, x, e.step, i, o, key);
      } else {
        BeginReachesNobody(c, x, e, i, o, key);
      }
    }
    HoldsRightFrame(x, t, o, key);
  }

  lemma StoreHoldsRight(c: Config, x: Cluster, e: Event, o: int, key: string)
    requires WellPlaced(c) && ClusterInv(c, x) && Possible(x, e) && e.StoreLocally?
    requires o in Holders(c, key) && o in x.stores && HoldsRight(x, o, key)
    ensures HoldsRight(After(c, x, e), o, key)
  {
    var t, i := After(c, x, e), e.i;
    TargetsFit(c, i, x.jobs[i].write.key);
    forall k
      ensures !Reached(x, k, o, key)
      ensures Reached(t, k, o, key) ==> k == i && o == i && key == x.jobs[i].write.key
    {
      if Writing(x, k) {
        OnlyWriter(x, i, k);
      }
      if Reached(t, k, o, key) {
        assert Writing(x, k);
        OnlyWriter(x, i, k);
        assert o in Elements(Targets(c, i, key)) + {i};
      }
    }
    if o == i && key == x.jobs[i].write.key {
      assert Reached(t, i, o, key);
    }
  }

  lemma ReplicateKeepsWriters(c: Config, x: Cluster, e: Event, k: int)
    requires ClusterInv(c, x) && Possible(x, e) && e.ReplicateNext?
    ensures Writing(After(c, x, e), k) <==> Writing(x, k)
  {
    QuietStep(x.protocol.nodes[x.jobs[e.i].remaining[0]], StepOf(x, e));
  }

  lemma ReplicateReachesNext(c: Config, x: Cluster, e: Event, k: int, o: int, key: string)
    requires ClusterInv(c, x) && Possible(x, e) && e.ReplicateNext?
    ensures var t, job := After(c, x, e), x.jobs[e.i];
            && (Reached(t, k, o, key) <==>
                Reached(x, k, o, key) || (k == e.i && o == job.remaining[0] && key == job.write.key))
            && (Reached(t, k, o, key) ==> k == e.i && t.jobs[k].write == job.write)
  {
    var t, i := After(c, x, e), e.i;
    var job := x.jobs[i];
    assert JobOk(c, x, i);
    ReplicateKeepsWriters(c, x, e, k);
    if Writing(x, k) {
      OnlyWriter(x, i, k);
      var next := job.remaining[0];
      assert job.remaining == [next] + job.remaining[1..];
      assert next !in job.remaining[1..];
    }
  }

  lemma ReplicateHoldsRight(c: Config, x: Cluster, e: Event, o: int, key: string)
    requires ClusterInv(c, x) && Possible(x, e) && e.ReplicateNext?
    requires o in x.stores && HoldsRight(x, o, key)
    ensures HoldsRight(After(c, x, e), o, key)
  {
    var t, job := After(c, x, e), x.jobs[e.i];
    forall k
      ensures Reached(t, k, o, key) <==>
              Reached(x, k, o, key) || (k == e.i && o == job.remaining[0] && key == job.write.key)
      ensures Reached(t, k, o, key) ==> k == e.i && t.jobs[k].write == job.write
    {
      ReplicateReachesNext(c, x, e, k, o, key);
    }
    if o == job.remaining[0] && key == job.write.key {
      assert Reached(t, e.i, o, key);
      assert Lookup(t.stores[o], key) == Some(job.write.item);
    } else {
      assert Lookup(t.stores[o], key) == Lookup(x.stores[o], key);
    }
  }

  lemma EndHoldsRight(c: Config, x: Cluster, e: Event, o: int, key: string)
    requires ClusterInv(c, x) && Possible(x, e) && e.PutEnd?
    requires o in x.stores && HoldsRight(x, o, key)
    ensures HoldsRight(After(c, x, e), o, key)
  {
    var t, i := After(c, x, e), e.i;
    var w := x.jobs[i].write;
    assert t.completed[..|t.completed| - 1] == x.completed;
    forall k ensures !Reached(t, k, o, key) && (Reached(x, k, o, key) ==> k == i) {
      if Writing(x, k) {
        OnlyWriter(x, i, k);
      }
    }
    if key == w.key {
      assert Reached(x, i, o, key);
    }
  }

  lemma EventKept(c: Config, x: Cluster, e: Event)
    requires WellPlaced(c) && ClusterInv(c, x) && Possible(x, e)
    ensures ClusterInv(c, After(c, x, e))
  {
    JobsKept(c, x, e);
    forall o, key | o in Holders(c, key) && o in x.stores ensures HoldsRight(After(c, x, e), o, key) {
      match e {
        case Protocol(_) => ProtocolHoldsRight(c, x, e, o, key);
        case PutBegin(_, _) => ProtocolHoldsRight(c, x, e, o, key);
        case StoreLocally(_) => StoreHoldsRight(c, x, e, o, key);
        case ReplicateNext(_) => ReplicateHoldsRight(c, x, e, o, key);
        case PutEnd(_) => EndHoldsRight(c, x, e, o, key);
      }
    }
  }

  lemma {:induction false} ClusterInvAlways(c: Config, events: seq<Event>)
    requires WellPlaced(c) && History(c, events).Some?
    ensures ClusterInv(c, History(c, events).value)
  {
    if events == [] {
      StrictAlways(STRICT, Elements(c.ids), []);
      assert ClusterInv(c, Start(c));
    } else {
      ClusterInvAlways(c, events[..|events| - 1]);
      EventKept(c, History(c, events[..|events| - 1]).value, events[|events| - 1]);
    }
  }

  /** Whenever no node is in its critical section, every holder of every key holds the item
      of the last completed `MutexPut` to that key, or nothing if there was none. */
  lemma {:induction false} ReplicasAgree(c: Config, events: seq<Event>, x: Cluster, key: string, o: int)
    requires WellPlaced(c) && History(c, events) == Some(x) && o in Holders(c, key)
    requires forall i :: i in x.protocol.nodes ==> !InSection(x.protocol, i)
    ensures o in x.stores && Lookup(x.stores[o], key) == LastWrite(x.completed, key)
  {
    ClusterInvAlways(c, events);
    TargetsFit(c, o, key);
    assert HoldsRight(x, o, key);
  }

  /** During i's critical section: holders of i's key that the write has reached hold the new
      item, the others and all other keys still show the last completed write. */
  lemma {:induction false} ReplicasMidSection(c: Config, events: seq<Event>, x: Cluster, i: int, key: string, o: int)
    requires WellPlaced(c) && History(c, events) == Some(x) && o in Holders(c, key)
    requires Writing(x, i)
    ensures o in x.stores
    ensures Lookup(x.stores[o], key) ==
            if x.jobs[i].stored && x.jobs[i].write.key == key && o !in x.jobs[i].remaining
            then Some(x.jobs[i].write.item)
            else LastWrite(x.completed, key)
  {
    ClusterInvAlways(c, events);
    TargetsFit(c, o, key);
    assert HoldsRight(x, o, key);
    if !Reached(x, i, o, key) {
      forall k ensures !Reached(x, k, o, key) {
        if Writing(x, k) {
          OnlyWriter(x, i, k);
        }
      }
    }
  }

  // ----- The placement the hash ring gives -----

  ghost function RingConfig(l: Ring.Layout, ids: seq<int>, factor: nat): Config {
    Config(ids, Partitioned(key => RingTheorems.OwnersAfter(l, RingTheorems.Loading(ids), key, factor)))
  }

  /** Owner lists of the ring every node builds from the configuration meet what replication
      needs, with or without hash collisions: distinct, configured nodes. */
  lemma RingIsWellPlaced(l: Ring.Layout, ids: seq<int>, factor: nat)
    requires Distinct(ids)
    ensures WellPlaced(RingConfig(l, ids, factor))
  {
    var c, ops := RingConfig(l, ids, factor), RingTheorems.Loading(ids);
    Ring.InvariantAlways(l, ops);
    RingTheorems.RunNodes(l, ops);
    RingTheorems.LoadingNodes(ids);
    forall key ensures Distinct((c.placement.owners)(key)) && Elements((c.placement.owners)(key)) <= Elements(c.ids) {
      Ring.NodesForAreCurrent(l, Ring.Run(l, ops), key, factor);
    }
  }
}
