/** Every replicated write that has begun can be carried through, from every state of every history. */
module PutProgress {
  import opened Collections
  import opened RequestState
  import opened RicartAgrawala
  import opened Replication
  import opened MutexPut
  import MutualExclusion
  import RequestOrder

  // ----- Histories are runs of the protocol -----

  /** The protocol steps of a history. */
  function StepsOf(c: Config, events: seq<Event>): seq<Step> {
    if events == [] then []
    else
      var n := |events| - 1;
      match History(c, events[..n])
      case None => StepsOf(c, events[..n])
      case Some(x) =>
        if events[n].StoreLocally? || !Possible(x, events[n]) then StepsOf(c, events[..n])
        else StepsOf(c, events[..n]) + [StepOf(x, events[n])]
  }

  lemma {:induction false} HistoryIsRun(c: Config, events: seq<Event>)
    requires WellPlaced(c) && History(c, events).Some?
    ensures IsRun(MutualExclusion.STRICT, Init(Elements(c.ids)), StepsOf(c, events))
    ensures History(c, events).value.protocol == Run(Init(Elements(c.ids)), StepsOf(c, events))
  {
    if events != [] {
      var n := |events| - 1;
      HistoryIsRun(c, events[..n]);
      var x, e := History(c, events[..n]).value, events[n];
      if !e.StoreLocally? {
        StepIsAllowed(c, events[..n], x, e);
        Extend(MutualExclusion.STRICT, Init(Elements(c.ids)), StepsOf(c, events[..n]), StepOf(x, e));
      }
    }
  }

  lemma StepIsAllowed(c: Config, events: seq<Event>, x: Cluster, e: Event)
    requires WellPlaced(c) && History(c, events) == Some(x) && Possible(x, e) && !e.StoreLocally?
    ensures Enabled(MutualExclusion.STRICT, x.protocol, StepOf(x, e))
    ensures Replication.After(c, x, e).protocol == Apply(x.protocol, StepOf(x, e))
  {
  }

  // ----- Orderly steps are events -----

  /** The same data, jobs and completed writes, with the protocol moved on. */
  ghost predicate OnlyProtocol(x: Cluster, y: Cluster) {
    y.stores == x.stores && y.jobs == x.jobs && y.completed == x.completed
  }

  lemma {:induction false} StepsAreEvents(c: Config, events: seq<Event>, x: Cluster,
                                          ids: set<int>, n: nat, steps: seq<Step>)
    returns (all: seq<Event>, y: Cluster)
    requires History(c, events) == Some(x) && n <= |steps| && x.protocol == Run(Init(ids), steps[..n])
    requires RequestOrder.Orderly(ids, n, steps) && RequestOrder.NobodyLeaves(n, steps)
    ensures events <= all && History(c, all) == Some(y) && OnlyProtocol(x, y) && y.protocol == Run(Init(ids), steps)
    decreases |steps|
  {
    if |steps| == n {
      assert steps[..n] == steps;
      all, y := events, x;
    } else {
      var m := |steps| - 1;
      OrderlyPrefix(ids, n, steps);
      assert steps[..m][..n] == steps[..n];
      var before, z := StepsAreEvents(c, events, x, ids, n, steps[..m]);
      assert RequestOrder.OrderlyStep(ids, steps[..m], steps[m]);
      OneMore(c, before, z, Protocol(steps[m]));
      all, y := before + [Protocol(steps[m])], Replication.After(c, z, Protocol(steps[m]));
    }
  }

  lemma OrderlyPrefix(ids: set<int>, n: nat, steps: seq<Step>)
    requires RequestOrder.Orderly(ids, n, steps) && RequestOrder.NobodyLeaves(n, steps) && n < |steps|
    ensures RequestOrder.Orderly(ids, n, steps[..|steps| - 1]) && RequestOrder.NobodyLeaves(n, steps[..|steps| - 1])
  {
    var m := |steps| - 1;
    MutualExclusion.CarefulPrefix(ids, n, steps, m);
    forall k {:trigger steps[..m][k]} | 0 <= k < m ensures steps[..m][..k] == steps[..k] && steps[..m][k] == steps[k] {
    }
    forall k {:trigger steps[..m][k]} | n <= k < m
      ensures RequestOrder.OrderlyStep(ids, steps[..m][..k], steps[..m][k]) && !steps[..m][k].Leave?
    {
      assert RequestOrder.OrderlyStep(ids, steps[..k], steps[k]);
    }
  }

  // ----- One node through its section -----

  /** f has completed its write and is idle; all other jobs and requests are as they were. */
  ghost predicate WentThrough(x: Cluster, y: Cluster, f: int) {
    && f in x.jobs && x.jobs[f].Job? && y.jobs == x.jobs[f := NoJob]
    && y.completed == x.completed + [x.jobs[f].write]
    && y.protocol.nodes.Keys == x.protocol.nodes.Keys
    && RequestOrder.Waiting(y.protocol) == RequestOrder.Waiting(x.protocol) - {f}
  }

  lemma SendingKeepsRequests(c: Config, stored: Cluster, sent: Cluster, w: Write, targets: seq<int>, n: int)
    requires Sent(c, stored, sent, w, targets)
    ensures n in sent.protocol.nodes <==> n in stored.protocol.nodes
    ensures n in stored.protocol.nodes ==>
              (RequestOrder.Waits(sent.protocol, n) <==> RequestOrder.Waits(stored.protocol, n))
  {
    if n in stored.protocol.nodes {
      assert NodeGot(stored, sent, n, w, n in targets);
    }
  }

  lemma LeavingEndsWait(sent: Cluster, y: Cluster, i: int, w: Write)
    requires Ended(sent, y, i, w)
    ensures y.protocol.nodes.Keys == sent.protocol.nodes.Keys
    ensures RequestOrder.Waiting(y.protocol) == RequestOrder.Waiting(sent.protocol) - {i}
  {
  }

  lemma SameWaiting(c: Config, stored: Cluster, sent: Cluster, y: Cluster, i: int, w: Write, targets: seq<int>)
    requires Sent(c, stored, sent, w, targets) && Ended(sent, y, i, w)
    ensures y.protocol.nodes.Keys == stored.protocol.nodes.Keys
    ensures RequestOrder.Waiting(y.protocol) == RequestOrder.Waiting(stored.protocol) - {i}
  {
    LeavingEndsWait(sent, y, i, w);
    forall n
      ensures n in sent.protocol.nodes <==> n in stored.protocol.nodes
      ensures n in RequestOrder.Waiting(sent.protocol) <==> n in RequestOrder.Waiting(stored.protocol)
    {
      SendingKeepsRequests(c, stored, sent, w, targets, n);
    }
  }

  /** The write is stored, now or before. */
  lemma StoreFirst(c: Config, events: seq<Event>, x: Cluster, i: int)
    returns (first: seq<Event>, stored: Cluster, targets: seq<int>)
    requires WellPlaced(c) && History(c, events) == Some(x) && Writing(x, i)
    ensures events <= first && History(c, first) == Some(stored) && Consistent(c, stored)
    ensures Writing(stored, i) && stored.jobs == x.jobs[i := Job(x.jobs[i].write, true, targets)] && Distinct(targets)
    ensures stored.protocol == x.protocol && stored.completed == x.completed
  {
    SectionIsOk(c, events, x, i);
    first, stored, targets := events, x, x.jobs[i].remaining;
    if !x.jobs[i].stored {
      var w := x.jobs[i].write;
      TargetsFit(c, i, w.key);
      StoreGets(c, x, i, w);
      OneMore(c, events, x, StoreLocally(i));
      first := events + [StoreLocally(i)];
      stored, targets := Replication.After(c, x, StoreLocally(i)), Targets(c, i, w.key);
    }
  }

  lemma FinishSection(c: Config, events: seq<Event>, x: Cluster, i: int) returns (all: seq<Event>, y: Cluster)
    requires WellPlaced(c) && History(c, events) == Some(x) && Writing(x, i)
    ensures events <= all && History(c, all) == Some(y) && WentThrough(x, y, i)
  {
    var w := x.jobs[i].write;
    var first, stored, targets := StoreFirst(c, events, x, i);
    var sent;
    sent, y := FinishStored(c, first, stored, i, w, targets);
    all := first + Repeated(i, |targets|) + [PutEnd(i)];
    OverwrittenTwice(x.jobs, i, Job(w, true, targets), NoJob);
    SameWaiting(c, stored, sent, y, i, w, targets);
  }

  // ----- Every write that has begun -----

  lemma JobsWait(c: Config, events: seq<Event>, x: Cluster, i: int)
    requires WellPlaced(c) && History(c, events) == Some(x) && i in x.jobs
    ensures x.protocol.nodes.Keys == x.jobs.Keys == Elements(c.ids)
    ensures x.jobs[i].Job? <==> i in RequestOrder.Waiting(x.protocol)
  {
    ClusterInvAlways(c, events);
    assert JobOk(c, x, i) && MutualExclusion.LocalOk(x.protocol.nodes[i], i);
  }

  /** The first of the nodes with a write under way is let in and carries its write through. */
  lemma FirstGoesThrough(c: Config, events: seq<Event>, x: Cluster, f: int) returns (all: seq<Event>, y: Cluster)
    requires WellPlaced(c) && History(c, events) == Some(x) && RequestOrder.Least(x.protocol, f)
    ensures events <= all && History(c, all) == Some(y) && WentThrough(x, y, f)
  {
    var ids, before := Elements(c.ids), StepsOf(c, events);
    HistoryIsRun(c, events);
    RunsAreFree(MutualExclusion.STRICT, Init(ids), before);
    var steps := RequestOrder.LeastGetsIn(ids, |before|, before, f);
    assert steps[..|before|] == before;
    var entered, z := StepsAreEvents(c, events, x, ids, |before|, steps);
    ClusterInvAlways(c, events);
    JobsWait(c, events, x, f);
    assert Writing(z, f);
    all, y := FinishSection(c, entered, z, f);
  }

  /** The later list extends the earlier one and ends with this write. */
  ghost predicate EndsWith(earlier: seq<Write>, later: seq<Write>, w: Write) {
    earlier <= later && |earlier| < |later| && later[|later| - 1] == w
  }

  /** From every state of every history, every `MutexPut` that has begun can be completed, after the
      writes of the nodes with earlier requests and with none of theirs or its own lost. */
  lemma {:induction false} EveryPutCompletes(c: Config, events: seq<Event>, x: Cluster, i: int)
    returns (all: seq<Event>, y: Cluster)
    requires WellPlaced(c) && History(c, events) == Some(x) && i in x.jobs && x.jobs[i].Job?
    ensures events <= all && History(c, all) == Some(y) && i in y.jobs && y.jobs[i] == NoJob
    ensures EndsWith(x.completed, y.completed, x.jobs[i].write)
    decreases RequestOrder.Waiting(x.protocol)
  {
    JobsWait(c, events, x, i);
    var f := LeastOfAll(x.protocol, i);
    var first, z := FirstGoesThrough(c, events, x, f);
    assert EndsWith(x.completed, z.completed, x.jobs[f].write);
    if f == i {
      all, y := first, z;
    } else {
      all, y := EveryPutCompletes(c, first, z, i);
    }
  }

  lemma LeastOfAll(s: System, i: int) returns (f: int)
    requires i in RequestOrder.Waiting(s)
    ensures RequestOrder.Least(s, f) && f in RequestOrder.Waiting(s)
  {
    f := RequestOrder.FirstOf(s, RequestOrder.Waiting(s));
  }

  /** And an idle configured node can always begin: every write can be made, whatever happened before. */
  lemma EveryPutCanBeMade(c: Config, events: seq<Event>, x: Cluster, i: int, w: Write)
    returns (all: seq<Event>, y: Cluster)
    requires WellPlaced(c) && History(c, events) == Some(x) && i in c.ids && x.jobs.Keys == Elements(c.ids)
    requires x.jobs[i] == NoJob
    ensures events <= all && History(c, all) == Some(y) && EndsWith(x.completed, y.completed, w)
  {
    ClusterInvAlways(c, events);
    assert JobOk(c, x, i);
    OneMore(c, events, x, PutBegin(i, w));
    all, y := EveryPutCompletes(c, events + [PutBegin(i, w)], Replication.After(c, x, PutBegin(i, w)), i);
  }
}
