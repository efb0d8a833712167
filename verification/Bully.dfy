/** The bully election as a transition system over a fixed set of live nodes. */
module Bully {
  import opened Collections

  const NO_LEADER := -1

  datatype Peer = Peer(
    leader: int,
    isLeader: bool,
    suspicious: bool,     // a check found no leader alive; the election it triggers has not started
    electing: bool,
    answered: set<int>    // higher nodes whose acknowledgement has arrived
  )

  /** A COORDINATOR message under way, from its sending goroutine to its delivery. */
  datatype Announcement = Announcement(src: int, dst: int)

  /** Only live nodes take part; `ids` are all configured nodes. */
  datatype World = World(ids: set<int>, peers: map<int, Peer>, pending: set<Announcement>)

  datatype Step =
    | Suspect(i: int)
    | Start(i: int)
    | Skip(i: int)
    | Ack(i: int, higher: int)
    | Conclude(i: int)
    | Deliver(a: Announcement)

  function LiveHigher(w: World, i: int): set<int> {
    set h | h in w.peers && h > i
  }

  /** `acked` is the one hypothesis on the network: an election of a node with live higher nodes
      ends only after at least one of them has acknowledged. Heartbeat replies of live leaders,
      and all further acknowledgements, may come late or never. */
  predicate Enabled(acked: bool, w: World, step: Step) {
    match step
    case Suspect(i) =>
      i in w.peers &&
      (w.peers[i].leader == NO_LEADER || (!w.peers[i].isLeader && w.peers[i].leader != i))
    case Start(i) => i in w.peers && w.peers[i].suspicious && !w.peers[i].electing
    case Skip(i) => i in w.peers && w.peers[i].suspicious && w.peers[i].electing
    case Ack(i, h) => i in w.peers && w.peers[i].electing && h in LiveHigher(w, i)
    case Conclude(i) =>
      i in w.peers && w.peers[i].electing && (acked && LiveHigher(w, i) != {} ==> w.peers[i].answered != {})
    case Deliver(a) => a in w.pending && a.dst in w.peers
  }

  function SetLeader(p: Peer, me: int, leader: int): Peer {
    p.(leader := leader, isLeader := leader == me)
  }

  function Started(p: Peer): Peer {
    p.(suspicious := false, electing := true, answered := {})
  }

  /** The end of an election: with no acknowledgement the node takes the lead itself. */
  function Concluded(p: Peer, me: int): Peer {
    var q := p.(electing := false, answered := {});
    if p.answered == {} then SetLeader(q, me, me) else q
  }

  function Announcements(src: int, dsts: set<int>): set<Announcement> {
    set j | j in dsts :: Announcement(src, j)
  }

  function WithPeer(w: World, i: int, p: Peer): World {
    w.(peers := w.peers[i := p])
  }

  function Apply(w: World, step: Step): World {
    match step
    case Suspect(i) =>
      if i in w.peers then WithPeer(w, i, w.peers[i].(suspicious := true)) else w
    case Start(i) =>
      if i in w.peers then WithPeer(w, i, Started(w.peers[i])) else w
    case Skip(i) =>
      if i in w.peers then WithPeer(w, i, w.peers[i].(suspicious := false)) else w
    case Ack(i, h) =>
      if i in w.peers then WithPeer(w, i, w.peers[i].(answered := w.peers[i].answered + {h})) else w
    case Conclude(i) =>
      if i !in w.peers then w
      else
        WithPeer(w, i, Concluded(w.peers[i], i)).(
          pending := w.pending + if w.peers[i].answered == {} then Announcements(i, w.ids - {i}) else {})
    case Deliver(a) =>
      if a.dst in w.peers then
        w.(peers := w.peers[a.dst := SetLeader(w.peers[a.dst], a.dst, a.src)], pending := w.pending - {a})
      else w
  }

  function Run(w: World, steps: seq<Step>): World {
    if steps == [] then w else Apply(Run(w, steps[..|steps| - 1]), steps[|steps| - 1])
  }

  ghost predicate IsRun(acked: bool, w: World, steps: seq<Step>) {
    steps == [] || (
      var n := |steps| - 1;
      IsRun(acked, w, steps[..n]) && Enabled(acked, Run(w, steps[..n]), steps[n]))
  }

  lemma Extend(acked: bool, w: World, steps: seq<Step>, step: Step)
    requires IsRun(acked, w, steps) && Enabled(acked, Run(w, steps), step)
    ensures IsRun(acked, w, steps + [step]) && Run(w, steps + [step]) == Apply(Run(w, steps), step)
  {
    assert (steps + [step])[..|steps|] == steps;
  }

  /** Nobody leads: every live node knows no leader or one that is dead, and nothing is under way. */
  ghost predicate Leaderless(w: World) {
    && w.peers.Keys <= w.ids && NO_LEADER !in w.peers && w.pending == {}
    && forall i :: i in w.peers ==>
         w.peers[i].leader !in w.peers && w.peers[i] == Peer(w.peers[i].leader, false, false, false, {})
  }

  ghost predicate IsHighest(w: World, top: int) {
    top in w.peers && forall i :: i in w.peers ==> i <= top
  }

  // ----- Safety when some live higher node acknowledges -----

  ghost predicate PeerOk(w0: World, w: World, top: int, i: int)
    requires i in w0.peers && i in w.peers
  {
    var p := w.peers[i];
    && (p.leader == w0.peers[i].leader || p.leader == top)
    && (p.isLeader <==> p.leader == i)
    && p.answered <= LiveHigher(w, i)
    && (top in w.peers && w.peers[top].isLeader ==> p.leader == top || Announcement(top, i) in w.pending)
  }

  ghost predicate Inv(w0: World, w: World, top: int) {
    && w.peers.Keys == w0.peers.Keys && w.ids == w0.ids && top in w.peers
    && (forall a :: a in w.pending ==> a.src == top && a.dst != top && w.peers[top].isLeader)
    && (forall i :: i in w.peers ==> PeerOk(w0, w, top, i))
  }

  lemma InvKept(w0: World, w: World, top: int, step: Step)
    requires Leaderless(w0) && IsHighest(w0, top) && Inv(w0, w, top) && Enabled(true, w, step)
    ensures Inv(w0, Apply(w, step), top)
    ensures Concludes(w, step) ==> step.i == top
  {
    var t := Apply(w, step);
    if step.Conclude? {
      assert PeerOk(w0, w, top, step.i);
      if w.peers[step.i].answered == {} {
        assert top !in LiveHigher(w, step.i);
        assert step.i == top;
      }
    }
    forall i | i in t.peers ensures PeerOk(w0, t, top, i) {
      assert PeerOk(w0, w, top, i);
      assert LiveHigher(t, i) == LiveHigher(w, i);
      assert PeerOk(w0, w, top, top);
    }
  }

  /** This step makes its node run `becomeLeader`. */
  predicate Concludes(w: World, step: Step) {
    step.Conclude? && step.i in w.peers && w.peers[step.i].answered == {}
  }

  lemma {:induction false} InvAlways(w0: World, top: int, steps: seq<Step>)
    requires Leaderless(w0) && IsHighest(w0, top) && IsRun(true, w0, steps)
    ensures Inv(w0, Run(w0, steps), top)
  {
    if steps != [] {
      var n := |steps| - 1;
      InvAlways(w0, top, steps[..n]);
      InvKept(w0, Run(w0, steps[..n]), top, steps[n]);
    }
  }

  /** Only the highest live node ever becomes leader, every node's leader is the one it
      started with or that node, and once its announcements have arrived all agree. */
  lemma OnlyHighestLeads(w0: World, top: int, steps: seq<Step>)
    requires Leaderless(w0) && IsHighest(w0, top) && IsRun(true, w0, steps)
    ensures var w := Run(w0, steps);
            && w.peers.Keys == w0.peers.Keys
            && (forall i :: i in w.peers ==> w.peers[i].leader in {w0.peers[i].leader, top})
            && OnlyTopLeads(w, top)
            && (w.peers[top].isLeader && (forall a :: a in w.pending ==> a.dst !in w.peers) ==> Agreed(w, top))
  {
    InvAlways(w0, top, steps);
    var w := Run(w0, steps);
    forall i | i in w.peers
      ensures w.peers[i].leader in {w0.peers[i].leader, top} && (w.peers[i].isLeader ==> i == top)
      ensures w.peers[top].isLeader && (forall a :: a in w.pending ==> a.dst !in w.peers) ==> w.peers[i].leader == top
    {
      assert PeerOk(w0, w, top, i);
      if w.peers[top].isLeader && (forall a :: a in w.pending ==> a.dst !in w.peers) {
        assert Announcement(top, i) !in w.pending;
      }
    }
  }

  // ----- Stability and stabilisation -----

  ghost predicate Agreed(w: World, top: int) {
    forall i :: i in w.peers ==> w.peers[i].leader == top
  }

  /** Elections already triggered may still run, but no later step changes a leader again. */
  lemma {:induction false} AgreementStays(w0: World, top: int, steps: seq<Step>, more: seq<Step>)
    requires Leaderless(w0) && IsHighest(w0, top) && IsRun(true, w0, steps) && IsRun(true, Run(w0, steps), more)
    requires Agreed(Run(w0, steps), top)
    ensures Agreed(Run(Run(w0, steps), more), top) && Inv(w0, Run(Run(w0, steps), more), top)
  {
    InvAlways(w0, top, steps);
    if more != [] {
      var n := |more| - 1;
      AgreementStays(w0, top, steps, more[..n]);
      AgreementStep(w0, Run(Run(w0, steps), more[..n]), top, more[n]);
    }
  }

  lemma AgreementStep(w0: World, w: World, top: int, step: Step)
    requires Leaderless(w0) && IsHighest(w0, top) && Inv(w0, w, top) && Agreed(w, top) && Enabled(true, w, step)
    ensures Inv(w0, Apply(w, step), top) && Agreed(Apply(w, step), top)
  {
    InvKept(w0, w, top, step);
  }

  lemma {:induction false} DeliverAll(w0: World, top: int, steps: seq<Step>) returns (all: seq<Step>)
    requires Leaderless(w0) && IsHighest(w0, top) && IsRun(true, w0, steps)
    requires top in Run(w0, steps).peers && Run(w0, steps).peers[top].isLeader
    ensures steps <= all && IsRun(true, w0, all) && Agreed(Run(w0, all), top)
    decreases set a | a in Run(w0, steps).pending && a.dst in Run(w0, steps).peers
  {
    InvAlways(w0, top, steps);
    var w := Run(w0, steps);
    var deliverable := set a | a in w.pending && a.dst in w.peers;
    if deliverable == {} {
      assert forall a :: a in w.pending && a.dst in w.peers ==> a in deliverable;
      OnlyHighestLeads(w0, top, steps);
      return steps;
    }
    var a := Pick(deliverable);
    Extend(true, w0, steps, Deliver(a));
    assert a.dst != top;
    var t := Run(w0, steps + [Deliver(a)]);
    assert (set b | b in t.pending && b.dst in t.peers) == deliverable - {a};
    all := DeliverAll(w0, top, steps + [Deliver(a)]);
  }

  /** From every reachable state the live nodes can still come to agree on the highest of them. */
  lemma AgreementReachable(w0: World, top: int, steps: seq<Step>) returns (all: seq<Step>)
    requires Leaderless(w0) && IsHighest(w0, top) && IsRun(true, w0, steps)
    ensures steps <= all && IsRun(true, w0, all) && Agreed(Run(w0, all), top)
  {
    InvAlways(w0, top, steps);
    all := steps;
    assert PeerOk(w0, Run(w0, all), top, top);
    if !Run(w0, all).peers[top].isLeader && !Run(w0, all).peers[top].electing {
      if !Run(w0, all).peers[top].suspicious {
        Extend(true, w0, all, Suspect(top));
        all := all + [Suspect(top)];
      }
      Extend(true, w0, all, Start(top));
      all := all + [Start(top)];
    }
    if !Run(w0, all).peers[top].isLeader {
      InvAlways(w0, top, all);
      assert PeerOk(w0, Run(w0, all), top, top);
      assert LiveHigher(Run(w0, all), top) == {};
      Extend(true, w0, all, Conclude(top));
      all := all + [Conclude(top)];
    }
    all := DeliverAll(w0, top, all);
  }

  // ----- Announcements, whoever makes them -----

  ghost predicate FlagsAgree(w: World) {
    forall i :: i in w.peers ==> (w.peers[i].isLeader <==> w.peers[i].leader == i)
  }

  /** With no hypothesis on the network: whoever takes itself for the leader names itself, and
      nobody else does. */
  lemma {:induction false} FlagsAlwaysAgree(w0: World, steps: seq<Step>)
    requires Leaderless(w0) && IsRun(false, w0, steps)
    ensures FlagsAgree(Run(w0, steps)) && Run(w0, steps).peers.Keys == w0.peers.Keys
  {
    if steps != [] {
      FlagsAlwaysAgree(w0, steps[..|steps| - 1]);
    }
  }

  /** Until it arrives an announcement stays under way; when it arrives its receiver follows the
      sender, though the sender may be a lower node or be dead by then; and nobody else notices. */
  lemma DeliveryIsBelieved(w0: World, steps: seq<Step>, step: Step, a: Announcement)
    requires Leaderless(w0) && IsRun(false, w0, steps) && Enabled(false, Run(w0, steps), step)
    requires a in Run(w0, steps).pending && a.dst in w0.peers
    ensures var w, t := Run(w0, steps), Run(w0, steps + [step]);
            if step == Deliver(a) then
              && a.dst in t.peers && t.peers[a.dst].leader == a.src && (t.peers[a.dst].isLeader <==> a.src == a.dst)
              && t.pending == w.pending - {a}
              && forall i :: i in w.peers && i != a.dst ==> i in t.peers && t.peers[i] == w.peers[i]
            else a in t.pending
  {
    FlagsAlwaysAgree(w0, steps);
    Extend(false, w0, steps, step);
  }

  // ----- The hypothesis is exactly what is needed -----

  ghost predicate OnlyTopLeads(w: World, top: int) {
    forall i :: i in w.peers && w.peers[i].isLeader ==> i == top
  }

  /** For every single run, with no hypothesis on the network: in all its states only the
      highest live node leads if and only if no node with live higher nodes ended an election
      in it without an acknowledgement. */
  lemma {:induction false} RunSafeIff(w0: World, top: int, steps: seq<Step>)
    requires Leaderless(w0) && IsHighest(w0, top) && IsRun(false, w0, steps)
    ensures (forall k :: 0 <= k <= |steps| ==> OnlyTopLeads(Run(w0, steps[..k]), top)) <==> IsRun(true, w0, steps)
  {
    if IsRun(true, w0, steps) {
      forall k | 0 <= k <= |steps| ensures OnlyTopLeads(Run(w0, steps[..k]), top) {
        PrefixIsRun(true, w0, steps, k);
        OnlyHighestLeads(w0, top, steps[..k]);
      }
    } else {
      LowerNodeLeads(w0, top, steps);
    }
  }

  lemma {:induction false} PrefixIsRun(acked: bool, w: World, steps: seq<Step>, k: nat)
    requires IsRun(acked, w, steps) && k <= |steps|
    ensures IsRun(acked, w, steps[..k])
  {
    if k < |steps| {
      var n := |steps| - 1;
      PrefixIsRun(acked, w, steps[..n], k);
      assert steps[..n][..k] == steps[..k];
    } else {
      assert steps[..k] == steps;
    }
  }

  lemma {:induction false} LowerNodeLeads(w0: World, top: int, steps: seq<Step>)
    requires IsHighest(w0, top) && IsRun(false, w0, steps) && !IsRun(true, w0, steps)
    ensures exists k :: 0 <= k <= |steps| && !OnlyTopLeads(Run(w0, steps[..k]), top)
  {
    var n := |steps| - 1;
    if IsRun(true, w0, steps[..n]) {
      SamePeers(w0, steps);
      SamePeers(w0, steps[..n]);
      var w, i := Run(w0, steps[..n]), steps[n].i;
      assert Run(w0, steps).peers[i].isLeader && LiveHigher(w, i) != {};
      var h := Pick(LiveHigher(w, i));
      assert i < h <= top;
      assert steps[..|steps|] == steps;
      assert !OnlyTopLeads(Run(w0, steps), top);
    } else {
      LowerNodeLeads(w0, top, steps[..n]);
      var k :| 0 <= k <= n && !OnlyTopLeads(Run(w0, steps[..n][..k]), top);
      assert steps[..n][..k] == steps[..k];
    }
  }

  /** No run from a leaderless start makes a node other than the highest live one leader. */
  ghost predicate Safe(acked: bool, w0: World, top: int) {
    forall steps :: IsRun(acked, w0, steps) ==> OnlyTopLeads(Run(w0, steps), top)
  }

  /** Over all runs: only the highest can come to lead exactly under the hypothesis, or when it
      is the only live node. `Election` never starts an election of its own, so a node that
      hears from no live higher node in time seats itself. */
  lemma SafeIff(acked: bool, w0: World, top: int)
    requires Leaderless(w0) && IsHighest(w0, top)
    ensures Safe(acked, w0, top) <==> acked || w0.peers.Keys == {top}
  {
    if acked {
      forall steps | IsRun(true, w0, steps) ensures OnlyTopLeads(Run(w0, steps), top) {
        OnlyHighestLeads(w0, top, steps);
      }
    } else if w0.peers.Keys == {top} {
      forall steps | IsRun(acked, w0, steps) ensures OnlyTopLeads(Run(w0, steps), top) {
        SamePeers(w0, steps);
      }
    } else {
      assert w0.peers.Keys - {top} != {};
      var i := Pick(w0.peers.Keys - {top});
      var steps := SeatLower(w0, i);
      assert !OnlyTopLeads(Run(w0, steps), top);
    }
  }

  lemma {:induction false} SamePeers(w: World, steps: seq<Step>)
    ensures Run(w, steps).peers.Keys == w.peers.Keys && Run(w, steps).ids == w.ids
  {
    if steps != [] {
      SamePeers(w, steps[..|steps| - 1]);
    }
  }

  lemma SeatLower(w0: World, i: int) returns (steps: seq<Step>)
    requires Leaderless(w0) && i in w0.peers
    ensures IsRun(false, w0, steps) && i in Run(w0, steps).peers && Run(w0, steps).peers[i].isLeader
  {
    assert w0.peers[i] == Peer(w0.peers[i].leader, false, false, false, {});
    Extend(false, w0, [], Suspect(i));
    steps := [] + [Suspect(i)];
    Extend(false, w0, steps, Start(i));
    steps := steps + [Start(i)];
    Extend(false, w0, steps, Conclude(i));
    steps := steps + [Conclude(i)];
  }

  // ----- A whole election, and a whole round of the monitor, as steps -----

  function Acks(i: int, heard: seq<int>): (r: seq<Step>)
    ensures |r| == |heard| && forall k :: 0 <= k < |heard| ==> r[k] == Ack(i, heard[k])
  {
    seq(|heard|, k requires 0 <= k < |heard| => Ack(i, heard[k]))
  }

  /** What one call of StartElection does when the nodes `heard` acknowledge in time. */
  function ElectionSteps(electing: bool, i: int, heard: seq<int>): seq<Step> {
    if electing then [Skip(i)] else [Start(i)] + Acks(i, heard) + [Conclude(i)]
  }

  function AfterElection(p: Peer, me: int, heard: seq<int>): Peer {
    if p.electing then p.(suspicious := false) else Concluded(Started(p).(answered := Elements(heard)), me)
  }

  /** A round that finds a leader does nothing, any other leads to an election. */
  function RoundSteps(found: bool, electing: bool, i: int, heard: seq<int>): seq<Step> {
    if found then [] else [Suspect(i)] + ElectionSteps(electing, i, heard)
  }

  function AfterRound(found: bool, p: Peer, me: int, heard: seq<int>): Peer {
    if found then p else AfterElection(p.(suspicious := true), me, heard)
  }

  /** The announcements a round sends out. */
  function RoundSends(found: bool, p: Peer, me: int, heard: seq<int>, others: set<int>): set<Announcement> {
    if !found && !p.electing && heard == [] then Announcements(me, others) else {}
  }

  lemma {:induction false} Chain(acked: bool, w: World, steps: seq<Step>, more: seq<Step>)
    ensures Run(w, steps + more) == Run(Run(w, steps), more)
    ensures IsRun(acked, w, steps) ==> (IsRun(acked, w, steps + more) <==> IsRun(acked, Run(w, steps), more))
  {
    if more == [] {
      assert steps + more == steps;
    } else {
      var n := |more| - 1;
      Chain(acked, w, steps, more[..n]);
      assert (steps + more)[..|steps| + n] == steps + more[..n];
    }
  }

  lemma One(acked: bool, w: World, step: Step)
    ensures Run(w, [step]) == Apply(w, step) && (IsRun(acked, w, [step]) <==> Enabled(acked, w, step))
  {
    assert [step][..0] == [];
  }

  lemma OneMoreAck(w: World, i: int, p: Peer, h: int)
    requires i in w.peers
    ensures Apply(WithPeer(w, i, p), Ack(i, h)) == WithPeer(w, i, p.(answered := p.answered + {h}))
  {
  }

  lemma {:induction false} AcksAreHeard(w: World, i: int, heard: seq<int>)
    requires i in w.peers && w.peers[i].electing && w.peers[i].answered == {}
    ensures Run(w, Acks(i, heard)) == WithPeer(w, i, w.peers[i].(answered := Elements(heard)))
  {
    if heard == [] {
      assert Elements(heard) == {};
      assert w.peers[i := w.peers[i]] == w.peers;
    } else {
      var n := |heard| - 1;
      AcksAreHeard(w, i, heard[..n]);
      assert Acks(i, heard)[..n] == Acks(i, heard[..n]);
      assert heard == heard[..n] + [heard[n]];
      assert Elements(heard) == Elements(heard[..n]) + {heard[n]};
      OneMoreAck(w, i, w.peers[i].(answered := Elements(heard[..n])), heard[n]);
    }
  }

  lemma {:induction false} AcksAllowed(acked: bool, w: World, i: int, heard: seq<int>)
    requires i in w.peers && w.peers[i].electing && w.peers[i].answered == {} && Elements(heard) <= LiveHigher(w, i)
    ensures IsRun(acked, w, Acks(i, heard))
  {
    if heard != [] {
      var n := |heard| - 1;
      assert Elements(heard[..n]) <= Elements(heard) && heard[n] in Elements(heard);
      AcksAllowed(acked, w, i, heard[..n]);
      AcksAreHeard(w, i, heard[..n]);
      assert Acks(i, heard)[..n] == Acks(i, heard[..n]);
      assert LiveHigher(Run(w, Acks(i, heard[..n])), i) == LiveHigher(w, i);
    }
  }

  lemma ElectionRuns(acked: bool, w: World, i: int, heard: seq<int>)
    requires i in w.peers
    ensures var p := w.peers[i];
            Run(w, ElectionSteps(p.electing, i, heard)) ==
            WithPeer(w, i, AfterElection(p, i, heard)).(
              pending := w.pending + RoundSends(false, p, i, heard, w.ids - {i}))
    ensures (&& w.peers[i].suspicious && Elements(heard) <= LiveHigher(w, i)
             && (acked && !w.peers[i].electing && LiveHigher(w, i) != {} ==> heard != []))
            ==> IsRun(acked, w, ElectionSteps(w.peers[i].electing, i, heard))
  {
    var p := w.peers[i];
    if p.electing {
      One(acked, w, Skip(i));
    } else {
      One(acked, w, Start(i));
      var t := Run(w, [Start(i)]);
      assert LiveHigher(t, i) == LiveHigher(w, i);
      AcksAreHeard(t, i, heard);
      if Elements(heard) <= LiveHigher(w, i) {
        AcksAllowed(acked, t, i, heard);
      }
      Chain(acked, w, [Start(i)], Acks(i, heard));
      var u := Run(w, [Start(i)] + Acks(i, heard));
      One(acked, u, Conclude(i));
      Chain(acked, w, [Start(i)] + Acks(i, heard), [Conclude(i)]);
      assert heard == [] <==> Elements(heard) == {} by {
        if heard != [] {
          NonemptyHasMember(heard);
        }
      }
      assert LiveHigher(u, i) == LiveHigher(w, i);
    }
  }

  /** A round of the monitor does to the world what its steps do, and its steps are allowed
      when acknowledgements come from live higher nodes only, and from at least one of them
      under the hypothesis. */
  lemma RoundRuns(acked: bool, w: World, found: bool, i: int, heard: seq<int>)
    requires i in w.peers
    ensures var p := w.peers[i];
            Run(w, RoundSteps(found, p.electing, i, heard)) ==
            WithPeer(w, i, AfterRound(found, p, i, heard)).(
              pending := w.pending + RoundSends(found, p, i, heard, w.ids - {i}))
    ensures (&& (found || Enabled(acked, w, Suspect(i))) && Elements(heard) <= LiveHigher(w, i)
             && (acked && !w.peers[i].electing && LiveHigher(w, i) != {} ==> heard != []))
            ==> IsRun(acked, w, RoundSteps(found, w.peers[i].electing, i, heard))
  {
    if !found {
      One(acked, w, Suspect(i));
      var t := Run(w, [Suspect(i)]);
      ElectionRuns(acked, t, i, heard);
      Chain(acked, w, [Suspect(i)], ElectionSteps(w.peers[i].electing, i, heard));
      assert LiveHigher(t, i) == LiveHigher(w, i);
    }
  }
}
