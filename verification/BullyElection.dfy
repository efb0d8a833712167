/** The election manager of one node, with the replies it gets as a parameter. Each call is
    proved to do to its node what the corresponding steps of `Bully` do to its peer. */
module BullyElection {
  import opened Collections
  import opened Nodes
  import Bully

  predicate FindsLeader(leader: int, me: int, responding: set<int>) {
    leader != Bully.NO_LEADER && (leader == me || leader in responding)
  }

  lemma WithinMore(w: seq<int>, x: int, s: set<int>)
    ensures Within(w + [x], s) == if x in s then Within(w, s) + [x] else Within(w, s)
  {
    assert (w + [x])[..|w|] == w;
  }

  lemma NoneHeard(heard: seq<int>)
    ensures heard == [] <==> Elements(heard) == {}
    ensures heard != [] ==> heard[0] in heard
  {
    if heard != [] {
      NonemptyHasMember(heard);
    }
  }

  class BullyElection {
    const node: Node
    var electionInProgress: bool

    constructor (node: Node)
      ensures this.node == node && !electionInProgress
    {
      this.node := node;
      electionInProgress := false;
    }

    /** The node's leader and this manager's flag are those of the peer; no check is pending. */
    ghost predicate Shows(p: Bully.Peer)
      reads this`electionInProgress, node`leaderID, node`isLeader
    {
      node.leaderID == p.leader && node.isLeader == p.isLeader && electionInProgress == p.electing && !p.suspicious
    }

    /** The manager's part of a world: its own peer, and the configured nodes as members. */
    ghost predicate PartOf(w: Bully.World)
      reads this`electionInProgress, node`leaderID, node`isLeader
    {
      node.id in w.peers && w.ids == Elements(node.config) && Shows(w.peers[node.id])
    }

    /** From w, exactly these announcements went out and nothing but the own peer may differ. */
    ghost predicate Became(w: Bully.World, t: Bully.World, announced: seq<int>)
      reads this`electionInProgress, node`leaderID, node`isLeader
    {
      && PartOf(t)
      && t.peers == w.peers[node.id := t.peers[node.id]]
      && t.pending == w.pending + Bully.Announcements(node.id, Elements(announced))
    }

    /** Whether the monitor of this node finds a leader in w. */
    ghost predicate Finds(w: Bully.World, responding: set<int>)
      requires node.id in w.peers
    {
      w.peers[node.id].isLeader || FindsLeader(w.peers[node.id].leader, node.id, responding)
    }

    /** From w, the steps of a round with this outcome of the check and these acknowledgements lead
        to what this manager is now, having sent exactly these announcements. */
    ghost predicate Simulates(w: Bully.World, found: bool, heard: seq<int>, announced: seq<int>)
      reads this`electionInProgress, node`leaderID, node`isLeader
      requires node.id in w.peers
    {
      var steps := Bully.RoundSteps(found, w.peers[node.id].electing, node.id, heard);
      Became(w, Bully.Run(w, steps), announced)
    }

    /** The higher nodes whose acknowledgement arrives: the connection and the call succeed. */
    ghost function HeardFrom(reached: set<int>, answering: set<int>): seq<int> {
      Within(Within(Higher(node.config, node.id), reached), answering)
    }

    /** One tick for each higher node that is called. */
    ghost function ElectionTicks(reached: set<int>): nat
      reads this`electionInProgress
    {
      if electionInProgress then 0 else |Within(Higher(node.config, node.id), reached)|
    }

    /** One tick if a heartbeat is sent to another leader. */
    ghost function CheckTicks(reached: set<int>): nat
      reads node`leaderID
    {
      if node.leaderID != Bully.NO_LEADER && node.leaderID != node.id && node.leaderID in reached then 1 else 0
    }

    /** Ask all higher nodes; lead if none of them acknowledges in time. `reached` are the nodes
        a connection can be made to, `answering` those whose acknowledgement then arrives in
        time. Returns the nodes to announce to. */
    method StartElection(reached: set<int>, answering: set<int>) returns (announced: seq<int>)
      modifies this`electionInProgress, node`leaderID, node`isLeader, node`lamportClock
      ensures electionInProgress == old(electionInProgress)
      ensures var alone := forall h :: h in node.config && h > node.id ==> h !in reached || h !in answering;
              if !old(electionInProgress) && alone then
                node.leaderID == node.id && node.isLeader && announced == Without(node.config, node.id)
              else
                node.leaderID == old(node.leaderID) && node.isLeader == old(node.isLeader) && announced == []
      ensures forall p: Bully.Peer :: old(Shows(p)) ==>
                Shows(Bully.AfterElection(p, node.id, HeardFrom(reached, answering)))
      ensures announced == if !old(electionInProgress) && HeardFrom(reached, answering) == []
                           then Without(node.config, node.id) else []
      ensures node.lamportClock == old(node.lamportClock) + old(ElectionTicks(reached))
    {
      if electionInProgress {
        return [];
      }
      electionInProgress := true;
      var higherNodes := node.GetHigherNodes();
      NoneHeard(HeardFrom(reached, answering));
      if |higherNodes| == 0 {
        announced := BecomeLeader();
        electionInProgress := false;
        return;
      }
      var gotResponse := AskHigher(higherNodes, reached, answering);
      if gotResponse {
        announced := [];
      } else {
        announced := BecomeLeader();
      }
      electionInProgress := false;
    }

    /** One call per higher node that can be reached, each under a fresh timestamp. */
    method AskHigher(higherNodes: seq<int>, reached: set<int>, answering: set<int>) returns (gotResponse: bool)
      modifies node`lamportClock
      ensures gotResponse <==> exists h :: h in higherNodes && h in reached && h in answering
      ensures gotResponse <==> Within(Within(higherNodes, reached), answering) != []
      ensures node.lamportClock == old(node.lamportClock) + |Within(higherNodes, reached)|
    {
      gotResponse := false;
      for i := 0 to |higherNodes|
        invariant node.lamportClock == old(node.lamportClock) + |Within(higherNodes[..i], reached)|
        invariant gotResponse <==> exists h :: h in higherNodes[..i] && h in reached && h in answering
        invariant gotResponse <==> Within(Within(higherNodes[..i], reached), answering) != []
      {
        assert higherNodes[..i + 1][..i] == higherNodes[..i];
        assert forall h :: h in higherNodes[..i + 1] <==> h in higherNodes[..i] || h == higherNodes[i];
        if higherNodes[i] in reached {
          var _ := node.IncrementClock();
          WithinMore(Within(higherNodes[..i], reached), higherNodes[i], answering);
          if higherNodes[i] in answering {
            gotResponse := true;
          }
        }
      }
      assert higherNodes[..|higherNodes|] == higherNodes;
    }

    method BecomeLeader() returns (announced: seq<int>)
      modifies node`leaderID, node`isLeader
      ensures node.leaderID == node.id && node.isLeader
      ensures forall p :: node.Seen(p) == Bully.SetLeader(p, node.id, node.id)
      ensures announced == Without(node.config, node.id)
    {
      node.SetLeader(node.id);
      announced := node.GetOtherNodes();
    }

    /** Whether the monitor finds a leader: none known counts as dead, oneself as alive, and
        anybody else as alive when the heartbeat is answered. */
    method CheckLeaderAlive(reached: set<int>, responding: set<int>) returns (alive: bool)
      modifies node`lamportClock
      ensures alive <==> node.leaderID != -1 &&
                         (node.leaderID == node.id || (node.leaderID in reached && node.leaderID in responding))
      ensures alive <==> FindsLeader(node.leaderID, node.id, reached * responding)
      ensures node.lamportClock == old(node.lamportClock) +
              if node.leaderID != -1 && node.leaderID != node.id && node.leaderID in reached then 1 else 0
    {
      if node.leaderID == -1 {
        return false;
      }
      if node.leaderID == node.id {
        return true;
      }
      if node.leaderID !in reached {
        return false;
      }
      var _ := node.IncrementClock();
      return node.leaderID in responding;
    }

    /** A leader sends a heartbeat, under a fresh timestamp, to every other node it can reach. */
    method SendHeartbeats(reached: set<int>) returns (sent: seq<int>)
      modifies node`lamportClock
      ensures sent == Within(Without(node.config, node.id), reached)
      ensures node.lamportClock == old(node.lamportClock) + |sent|
    {
      var otherNodes := node.GetOtherNodes();
      sent := [];
      for i := 0 to |otherNodes|
        invariant sent == Within(otherNodes[..i], reached)
        invariant node.lamportClock == old(node.lamportClock) + |sent|
      {
        assert otherNodes[..i + 1][..i] == otherNodes[..i];
        if otherNodes[i] in reached {
          var _ := node.IncrementClock();
          sent := sent + [otherNodes[i]];
        }
      }
      assert otherNodes[..|otherNodes|] == otherNodes;
    }

    /** One round of the monitor. A leader sends heartbeats; a follower that finds no leader
        starts an election. In every world the node is part of, the round is a run of steps. */
    method MonitorRound(reached: set<int>, responding: set<int>, answering: set<int>)
      returns (heartbeats: seq<int>, announced: seq<int>)
      modifies this`electionInProgress, node`leaderID, node`isLeader, node`lamportClock
      ensures heartbeats == if old(node.isLeader) then Within(Without(node.config, node.id), reached) else []
      ensures electionInProgress == old(electionInProgress)
      ensures var leader := old(node.leaderID);
              var missed := leader == -1 || (leader != node.id && (leader !in reached || leader !in responding));
              var alone := forall h :: h in node.config && h > node.id ==> h !in reached || h !in answering;
              if !old(node.isLeader) && missed && !old(electionInProgress) && alone then
                node.leaderID == node.id && node.isLeader && announced == Without(node.config, node.id)
              else
                node.leaderID == leader && node.isLeader == old(node.isLeader) && announced == []
      ensures var leader := old(node.leaderID);
              var missed := leader == -1 || (leader != node.id && (leader !in reached || leader !in responding));
              !old(node.isLeader) && missed ==>
                forall p: Bully.Peer :: old(Shows(p)) ==>
                  Shows(Bully.AfterElection(p, node.id, HeardFrom(reached, answering)))
      ensures node.lamportClock == old(node.lamportClock) +
              if old(node.isLeader) then |heartbeats|
              else old(CheckTicks(reached)) + if FindsLeader(old(node.leaderID), node.id, reached * responding) then 0
                                              else old(ElectionTicks(reached))
      ensures forall w: Bully.World :: old(PartOf(w)) ==>
                Simulates(w, Finds(w, reached * responding), HeardFrom(reached, answering), announced)
    {
      heartbeats, announced := [], [];
      ghost var found := node.isLeader || FindsLeader(node.leaderID, node.id, reached * responding);
      if node.isLeader {
        heartbeats := SendHeartbeats(reached);
      } else {
        var alive := CheckLeaderAlive(reached, responding);
        if !alive {
          announced := StartElection(reached, answering);
        }
      }
      forall w: Bully.World | old(PartOf(w))
        ensures Simulates(w, found, HeardFrom(reached, answering), announced)
      {
        var p := w.peers[node.id];
        assert Bully.AfterElection(p.(suspicious := true), node.id, HeardFrom(reached, answering))
            == Bully.AfterElection(p, node.id, HeardFrom(reached, answering));
        RoundBecame(w, found, HeardFrom(reached, answering), announced);
      }
    }

    lemma RoundBecame(w: Bully.World, found: bool, heard: seq<int>, announced: seq<int>)
      requires node.id in w.peers && w.ids == Elements(node.config)
      requires Shows(Bully.AfterRound(found, w.peers[node.id], node.id, heard))
      requires announced == if !found && !w.peers[node.id].electing && heard == []
                            then Without(node.config, node.id) else []
      ensures Simulates(w, found, heard, announced)
    {
      Bully.RoundRuns(false, w, found, node.id, heard);
      assert Elements(announced) == if announced == [] then {} else w.ids - {node.id};
      assert announced == [] && !found && !w.peers[node.id].electing && heard == [] ==> w.ids - {node.id} == {};
    }

    /** Two seconds after start-up: an election if no leader has announced itself by then. */
    method TriggerElectionOnStartup(reached: set<int>, answering: set<int>) returns (announced: seq<int>)
      modifies this`electionInProgress, node`leaderID, node`isLeader, node`lamportClock
      ensures electionInProgress == old(electionInProgress)
      ensures var alone := forall h :: h in node.config && h > node.id ==> h !in reached || h !in answering;
              if old(node.leaderID) == -1 && !old(electionInProgress) && alone then
                node.leaderID == node.id && node.isLeader && announced == Without(node.config, node.id)
              else
                node.leaderID == old(node.leaderID) && node.isLeader == old(node.isLeader) && announced == []
      ensures node.lamportClock ==
              old(node.lamportClock) + if old(node.leaderID) == Bully.NO_LEADER then old(ElectionTicks(reached)) else 0
      ensures forall w: Bully.World :: old(PartOf(w)) ==>
                Simulates(w, w.peers[node.id].leader != Bully.NO_LEADER, HeardFrom(reached, answering), announced)
    {
      announced := [];
      ghost var found := node.leaderID != Bully.NO_LEADER;
      if node.leaderID == -1 {
        announced := StartElection(reached, answering);
      }
      forall w: Bully.World | old(PartOf(w))
        ensures Simulates(w, found, HeardFrom(reached, answering), announced)
      {
        RoundBecame(w, found, HeardFrom(reached, answering), announced);
      }
    }
  }

  /** What the network may do to the calls of i's election: only live nodes answer, and under the
      hypothesis at least one live higher node does, if there is any. */
  ghost predicate Replies(acked: bool, w: Bully.World, i: int, reached: set<int>, answering: set<int>) {
    var heard := reached * answering;
    heard <= w.peers.Keys && (acked && Bully.LiveHigher(w, i) != {} ==> Bully.LiveHigher(w, i) * heard != {})
  }

  /** A round continues every run of the election, whatever becomes of the heartbeats, so that
      all that holds of runs holds of the managers; and under the hypothesis a round that
      announces a leader is a round of the highest live node. */
  lemma RoundContinuesRun(be: BullyElection, acked: bool, w0: Bully.World, top: int, steps: seq<Bully.Step>,
                          reached: set<int>, responding: set<int>, answering: set<int>)
    requires Bully.Leaderless(w0) && Bully.IsHighest(w0, top) && Bully.IsRun(acked, w0, steps)
    requires be.PartOf(Bully.Run(w0, steps)) && Replies(acked, w0, be.node.id, reached, answering)
    ensures var w, heard := Bully.Run(w0, steps), be.HeardFrom(reached, answering);
            var p, found := w.peers[be.node.id], be.Finds(w, reached * responding);
            && Bully.IsRun(acked, w0, steps + Bully.RoundSteps(found, p.electing, be.node.id, heard))
            && (acked && !found && !p.electing && heard == [] ==> be.node.id == top)
  {
    var w, i, heard := Bully.Run(w0, steps), be.node.id, be.HeardFrom(reached, answering);
    var found := be.Finds(w, reached * responding);
    Bully.SamePeers(w0, steps);
    assert Bully.LiveHigher(w, i) == Bully.LiveHigher(w0, i);
    forall h | h in heard ensures h in Bully.LiveHigher(w, i) {
      assert h in reached * answering;
    }
    assert i != top ==> top in Bully.LiveHigher(w, i);
    if acked && Bully.LiveHigher(w, i) != {} {
      var h := Pick(Bully.LiveHigher(w, i) * (reached * answering));
      assert h in Elements(be.node.config) && h in heard;
    }
    Bully.RoundRuns(acked, w, found, i, heard);
    Bully.Chain(acked, w0, steps, Bully.RoundSteps(found, w.peers[i].electing, i, heard));
  }

  /** When no live node has a leader that lives, one round of the highest live node's monitor is
      enough: whatever replies the live nodes give, that node takes the lead and its
      announcements to all other configured nodes are under way. */
  method TakeOver(be: BullyElection, reached: set<int>, responding: set<int>, answering: set<int>, ghost w: Bully.World)
    returns (announced: seq<int>, ghost steps: seq<Bully.Step>)
    requires Bully.Leaderless(w) && Bully.IsHighest(w, be.node.id) && be.PartOf(w)
    requires reached * responding <= w.peers.Keys && reached * answering <= w.peers.Keys
    modifies be`electionInProgress, be.node`leaderID, be.node`isLeader, be.node`lamportClock
    ensures be.node.leaderID == be.node.id && be.node.isLeader && announced == Without(be.node.config, be.node.id)
    ensures Bully.IsRun(true, w, steps) && be.PartOf(Bully.Run(w, steps))
    ensures var t, i := Bully.Run(w, steps), be.node.id;
            && t.peers == w.peers[i := Bully.Peer(i, true, false, false, {})]
            && t.pending == set j | j in w.ids && j != i :: Bully.Announcement(i, j)
  {
    ghost var i, heard := be.node.id, be.HeardFrom(reached, answering);
    ghost var found := be.Finds(w, reached * responding);
    assert w.peers[i].leader !in w.peers && w.peers[i].leader !in reached * responding;
    assert Bully.Run(w, []) == w;
    assert Bully.LiveHigher(w, i) == {};
    RoundContinuesRun(be, true, w, i, [], reached, responding, answering);
    steps := Bully.RoundSteps(found, w.peers[i].electing, i, heard);
    assert [] + steps == steps;
    var heartbeats;
    heartbeats, announced := be.MonitorRound(reached, responding, answering);
    assert Elements(announced) == w.ids - {i};
  }
}
