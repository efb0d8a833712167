/** What the order on requests gives: no deferral in circles, the least request always gets
    in, and a request is overtaken at most once by each node that has seen it. */
module RequestOrder {
  import opened Collections
  import opened RequestState
  import opened RicartAgrawala
  import opened MutualExclusion

  function Own(s: System, i: int): Request
    requires i in s.nodes
  {
    OwnRequest(s.nodes[i].state, i)
  }

  /** The first request of a nonempty set of nodes. */
  lemma {:induction false} FirstOf(s: System, group: set<int>) returns (i: int)
    requires group != {} && group <= s.nodes.Keys
    ensures i in group && forall j :: j in group && j != i ==> Before(Own(s, i), Own(s, j))
  {
    i := Pick(group);
    var rest := group - {i};
    assert forall j :: j in group ==> j == i || j in rest;
    if rest != {} {
      var k := FirstOf(s, rest);
      if Before(Own(s, k), Own(s, i)) {
        i := k;
      }
    }
  }

  /** i's outstanding request waits in j's queue. */
  predicate HeldUp(s: System, i: int, j: int)
    requires i in s.nodes && j in s.nodes
  {
    s.nodes[i].state.requesting && Own(s, i) in s.nodes[j].state.deferred
  }

  /** In every reachable state each nonempty group of nodes has a member whose request no
      member holds up: requests never wait for each other in a circle. */
  lemma NoCircularDeferral(r: Rules, ids: set<int>, steps: seq<Step>, group: set<int>) returns (i: int)
    requires IsRun(r, Init(ids), steps) && group != {} && group <= ids
    ensures Run(Init(ids), steps).nodes.Keys == ids
    ensures i in group && forall j :: j in group ==> !HeldUp(Run(Init(ids), steps), i, j)
  {
    InvAlways(r, ids, steps);
    var s := Run(Init(ids), steps);
    i := FirstOf(s, group);
    forall j | j in group ensures !HeldUp(s, i, j) {
      assert LocalOk(s.nodes[j], j);
    }
  }

  // ----- Every live node that waits can be led into its section -----

  ghost predicate Waits(s: System, i: int)
    requires i in s.nodes
  {
    s.nodes[i].live && s.nodes[i].state.requesting
  }

  ghost function Waiting(s: System): set<int> {
    set i | i in s.nodes && Waits(s, i)
  }

  ghost predicate Least(s: System, i: int) {
    && i in s.nodes && Waits(s, i)
    && forall j :: j in s.nodes && j != i && Waits(s, j) ==> Before(Own(s, i), Own(s, j))
  }

  /** The same nodes are alive with the same requests, and only i may have moved on. */
  ghost predicate OnlyMoves(s: System, t: System, i: int) {
    && s.nodes.Keys == t.nodes.Keys
    && forall j :: j in s.nodes ==>
         && t.nodes[j].live == s.nodes[j].live
         && t.nodes[j].state.requesting == s.nodes[j].state.requesting
         && t.nodes[j].state.requestTime == s.nodes[j].state.requestTime
         && (j != i ==> t.nodes[j].phase == s.nodes[j].phase)
  }

  lemma MovesCompose(s: System, t: System, u: System, i: int)
    requires OnlyMoves(s, t, i) && OnlyMoves(t, u, i)
    ensures OnlyMoves(s, u, i)
  {
  }

  lemma StillLeast(s: System, t: System, i: int)
    requires Least(s, i) && OnlyMoves(s, t, i)
    ensures Least(t, i)
  {
    assert forall j :: j in t.nodes ==> Own(t, j) == Own(s, j) && (Waits(t, j) <==> Waits(s, j));
  }

  function After(ids: set<int>, steps: seq<Step>): System {
    Run(Init(ids), steps)
  }

  /** Any run whose steps from the n-th on are orderly: enabled under all hypotheses, with no
      call handled that was handled before, and with no crash and no new request. */
  ghost predicate Orderly(ids: set<int>, n: nat, steps: seq<Step>) {
    && n <= |steps| && IsRun(FREE, Init(ids), steps) && Careful(ids, n, steps)
    && forall k {:trigger steps[k]} :: n <= k < |steps| ==> OrderlyStep(ids, steps[..k], steps[k])
  }

  ghost predicate OrderlyStep(ids: set<int>, before: seq<Step>, step: Step) {
    && Enabled(STRICT, After(ids, before), step) && !step.Crash? && !step.Begin?
    && (step.Arrive? ==> step !in before)
  }

  /** Nobody leaves its section from the n-th step on. */
  ghost predicate NobodyLeaves(n: nat, steps: seq<Step>) {
    forall k {:trigger steps[k]} :: n <= k < |steps| ==> !steps[k].Leave?
  }

  lemma Take(ids: set<int>, n: nat, before: seq<Step>, step: Step) returns (after: seq<Step>)
    requires Orderly(ids, n, before) && OrderlyStep(ids, before, step)
    requires IsEntry(step) ==> AllBehind(After(ids, before), step.i)
    ensures after == before + [step] && Orderly(ids, n, after)
    ensures After(ids, after) == Apply(After(ids, before), step)
  {
    Extend(FREE, Init(ids), before, step);
    after := before + [step];
    forall k {:trigger after[k]} | 0 <= k < |after|
      ensures after[..k] == if k < |before| then before[..k] else before
    {
    }
  }

  ghost predicate Answered(s: System, j: int, m: Message)
    requires m.Ask?
  {
    Answer(j, m.src, m.timestamp, true) in s.sent || Answer(j, m.src, m.timestamp, false) in s.sent
  }

  ghost predicate Taken(s: System, j: int, m: Message)
    requires m.Ask?
  {
    j in s.nodes && (m in s.nodes[j].handling || Answered(s, j, m))
  }

  lemma TakenKept(s: System, step: Step, j: int, m: Message)
    requires m.Ask? && !m.reply && Taken(s, j, m) && step.i in s.nodes
    ensures Taken(Apply(s, step), j, m)
  {
    if !Answered(s, j, m) && step == Decide(j, m) {
      assert Emitted(s, s.nodes[j], step) <= Apply(s, step).sent;
    }
  }

  /** A request that has arrived is still being handled or has been answered. */
  lemma {:induction false} ArrivedIsHandled(r: Rules, ids: set<int>, steps: seq<Step>, j: int, m: Message)
    requires IsRun(r, Init(ids), steps) && Arrive(j, m) in steps && m.Ask? && !m.reply
    ensures Taken(After(ids, steps), j, m)
  {
    var n := |steps| - 1;
    if steps[n] != Arrive(j, m) {
      assert Arrive(j, m) in steps[..n];
      ArrivedIsHandled(r, ids, steps[..n], j, m);
      TakenKept(After(ids, steps[..n]), steps[n], j, m);
    }
  }

  ghost function OwnAsk(s: System, i: int, j: int): Message
    requires i in s.nodes
  {
    Ask(i, j, Own(s, i).timestamp, false)
  }

  /** i is collecting answers to the least request of all live nodes, and j is another live node. */
  ghost predicate Asking(s: System, i: int, j: int) {
    && Least(s, i) && s.nodes[i].phase == Collecting
    && j in Others(s, i) && s.nodes[j].live
  }

  lemma ReceiptIsQuiet(s: System, step: Step, i: int)
    requires (step.Arrive? || step.Decide?) && step.i in s.nodes && i in s.nodes && step.i != i
    ensures OnlyMoves(s, Apply(s, step), i) && Apply(s, step).nodes[i] == s.nodes[i]
    ensures s.sent <= Apply(s, step).sent
  {
  }

  /** Bring i's request to j, unless it has arrived there before. */
  lemma AskArrives(ids: set<int>, n: nat, before: seq<Step>, i: int, j: int) returns (after: seq<Step>)
    requires Orderly(ids, n, before) && Asking(After(ids, before), i, j)
    requires !Answered(After(ids, before), j, OwnAsk(After(ids, before), i, j))
    ensures before <= after && Orderly(ids, n, after) && NobodyLeaves(|before|, after)
    ensures var s, t := After(ids, before), After(ids, after);
            && OnlyMoves(s, t, i) && t.nodes[i] == s.nodes[i] && s.sent <= t.sent
            && OwnAsk(s, i, j) in t.nodes[j].handling
  {
    var s := After(ids, before);
    var m := OwnAsk(s, i, j);
    InvAlways(FREE, ids, before);
    assert BackedOk(s.nodes[i], i, Others(s, i), s.sent);
    if m in s.nodes[j].handling {
      after := before;
    } else {
      if Arrive(j, m) in before {
        ArrivedIsHandled(FREE, ids, before, j, m);
      }
      ReceiptIsQuiet(s, Arrive(j, m), i);
      after := Take(ids, n, before, Arrive(j, m));
    }
  }

  /** Have j answer, unless it has answered before. */
  lemma AskIsAnswered(ids: set<int>, n: nat, before: seq<Step>, i: int, j: int) returns (after: seq<Step>)
    requires Orderly(ids, n, before) && Asking(After(ids, before), i, j)
    ensures before <= after && Orderly(ids, n, after) && NobodyLeaves(|before|, after)
    ensures var s, t := After(ids, before), After(ids, after);
            && OnlyMoves(s, t, i) && t.nodes[i] == s.nodes[i] && s.sent <= t.sent
            && Answered(t, j, OwnAsk(s, i, j))
  {
    var s := After(ids, before);
    var m := OwnAsk(s, i, j);
    after := before;
    if !Answered(s, j, m) {
      var first := AskArrives(ids, n, before, i, j);
      ReceiptIsQuiet(After(ids, first), Decide(j, m), i);
      after := Take(ids, n, first, Decide(j, m));
      MovesCompose(s, After(ids, first), After(ids, after), i);
    }
  }

  ghost predicate AllAnswered(s: System, i: int, others: set<int>)
    requires i in s.nodes
  {
    forall j :: j in others && j in s.nodes && s.nodes[j].live ==> Answered(s, j, OwnAsk(s, i, j))
  }

  /** Have all live nodes of a set answer, one after the other. */
  lemma {:induction false} AllAnswer(ids: set<int>, n: nat, before: seq<Step>, i: int, others: set<int>)
    returns (after: seq<Step>)
    requires Orderly(ids, n, before) && Least(After(ids, before), i) && After(ids, before).nodes[i].phase == Collecting
    requires others <= Others(After(ids, before), i)
    ensures before <= after && Orderly(ids, n, after) && NobodyLeaves(|before|, after)
    ensures var s, t := After(ids, before), After(ids, after);
            && OnlyMoves(s, t, i) && t.nodes[i] == s.nodes[i] && s.sent <= t.sent
            && AllAnswered(t, i, others)
  {
    after := before;
    if others != {} {
      var j := Pick(others);
      var first := AllAnswer(ids, n, before, i, others - {j});
      var s, t := After(ids, before), After(ids, first);
      StillLeast(s, t, i);
      after := first;
      if t.nodes[j].live {
        after := AskIsAnswered(ids, n, first, i, j);
      }
      MovesCompose(s, t, After(ids, after), i);
      assert forall k :: k in others ==> k == j || k in others - {j};
    }
  }

  /** Nobody ahead of the least request of a live node still holds it. */
  lemma LeastIsCleared(s: System, i: int)
    requires Inv(s) && Least(s, i) && AllAnswered(s, i, Others(s, i))
    ensures AllCleared(s, i) && AllBehind(s, i)
  {
    forall j | j in Others(s, i) && s.nodes[j].live ensures Cleared(s, i, j) && Behind(s, i, j) {
      assert LocalOk(s.nodes[j], j);
      ClearedOrders(s, i, j);
    }
  }

  lemma EntryMovesOne(s: System, step: Step)
    requires IsEntry(step) && step.i in s.nodes && s.nodes[step.i].live
    ensures OnlyMoves(s, Apply(s, step), step.i) && InSection(Apply(s, step), step.i)
  {
  }

  lemma AnsweredEnters(ids: set<int>, n: nat, before: seq<Step>, i: int) returns (after: seq<Step>)
    requires Orderly(ids, n, before) && Least(After(ids, before), i)
    requires After(ids, before).nodes[i].phase == Collecting
    requires AllAnswered(After(ids, before), i, Others(After(ids, before), i))
    ensures before <= after && Orderly(ids, n, after) && NobodyLeaves(|before|, after)
    ensures OnlyMoves(After(ids, before), After(ids, after), i) && InSection(After(ids, after), i)
  {
    var s := After(ids, before);
    InvAlways(FREE, ids, before);
    LeastIsCleared(s, i);
    var entry := if CountReached(s, i) then EnterByCount(i) else EnterOnTimeout(i);
    EntryMovesOne(s, entry);
    after := Take(ids, n, before, entry);
  }

  /** The live node with the least request can be brought into its critical section, and
      nobody else moves. */
  lemma LeastGetsIn(ids: set<int>, n: nat, before: seq<Step>, i: int) returns (after: seq<Step>)
    requires Orderly(ids, n, before) && Least(After(ids, before), i)
    ensures before <= after && Orderly(ids, n, after) && NobodyLeaves(|before|, after)
    ensures OnlyMoves(After(ids, before), After(ids, after), i) && InSection(After(ids, after), i)
  {
    var s := After(ids, before);
    InvAlways(FREE, ids, before);
    assert LocalOk(s.nodes[i], i);
    after := before;
    if s.nodes[i].phase != Critical {
      var answered := AllAnswer(ids, n, before, i, Others(s, i));
      var t := After(ids, answered);
      StillLeast(s, t, i);
      assert Others(t, i) == Others(s, i);
      after := AnsweredEnters(ids, n, answered, i);
      MovesCompose(s, t, After(ids, after), i);
    }
  }

  /** The same nodes live, w's request is the same, and whoever asks after w has not moved. */
  ghost predicate StillAsks(s: System, t: System, w: int)
    requires w in s.nodes
  {
    && s.nodes.Keys == t.nodes.Keys
    && (forall j :: j in s.nodes ==> t.nodes[j].live == s.nodes[j].live)
    && Waits(t, w) && Own(t, w) == Own(s, w)
    && forall j :: j in s.nodes && j != w && Waits(s, j) && Before(Own(s, w), Own(s, j)) ==>
         Waits(t, j) && Own(t, j) == Own(s, j) && t.nodes[j].phase == s.nodes[j].phase
  }

  lemma LeaveKeepsLater(s: System, i: int, w: int)
    requires i in s.nodes && InSection(s, i) && w in s.nodes && w != i && Waits(s, w) && Before(Own(s, i), Own(s, w))
    ensures Enabled(STRICT, s, Leave(i)) && StillAsks(s, Apply(s, Leave(i)), w)
    ensures Waiting(Apply(s, Leave(i))) == Waiting(s) - {i}
  {
  }

  lemma StillAsksComposes(s: System, t: System, u: System, w: int)
    requires w in s.nodes && StillAsks(s, t, w) && StillAsks(t, u, w)
    ensures StillAsks(s, u, w)
  {
  }

  /** The first of the waiting nodes goes through its section while w goes on waiting. */
  lemma LetThrough(ids: set<int>, n: nat, before: seq<Step>, i: int, w: int) returns (after: seq<Step>)
    requires Orderly(ids, n, before) && Least(After(ids, before), i)
    requires w in After(ids, before).nodes && w != i && Waits(After(ids, before), w)
    ensures before <= after && Orderly(ids, n, after)
    ensures StillAsks(After(ids, before), After(ids, after), w)
    ensures Waiting(After(ids, after)) == Waiting(After(ids, before)) - {i}
  {
    var s := After(ids, before);
    var first := LeastGetsIn(ids, n, before, i);
    var t := After(ids, first);
    MovesKeepWaiting(s, t, i, w);
    LeaveKeepsLater(t, i, w);
    after := Take(ids, n, first, Leave(i));
    StillAsksComposes(s, t, After(ids, after), w);
  }

  lemma MovesKeepWaiting(s: System, t: System, i: int, w: int)
    requires OnlyMoves(s, t, i) && Least(s, i) && w in s.nodes && Waits(s, w)
    ensures Waiting(t) == Waiting(s) && StillAsks(s, t, w)
    ensures w != i ==> Before(Own(t, i), Own(t, w))
  {
  }

  /** No deadlock and no lockout: from every reachable state, however the run got there, every
      live node that waits can be led into its section on the request it has, by orderly steps
      that let the nodes with earlier requests through first and leave those with later
      requests where they are. */
  lemma {:induction false} EveryWaiterGetsIn(ids: set<int>, n: nat, before: seq<Step>, w: int)
    returns (after: seq<Step>)
    requires Orderly(ids, n, before) && w in After(ids, before).nodes && Waits(After(ids, before), w)
    ensures before <= after && Orderly(ids, n, after)
    ensures StillAsks(After(ids, before), After(ids, after), w) && InSection(After(ids, after), w)
    decreases Waiting(After(ids, before))
  {
    var s := After(ids, before);
    assert w in Waiting(s);
    var i := FirstOf(s, Waiting(s));
    if i == w {
      after := LeastGetsIn(ids, n, before, w);
      MovesKeepWaiting(s, After(ids, after), w, w);
    } else {
      var first := LetThrough(ids, n, before, i, w);
      after := EveryWaiterGetsIn(ids, n, first, w);
      StillAsksComposes(s, After(ids, first), After(ids, after), w);
    }
  }

  // ----- Entering by count -----

  function Uncounted(s: System, i: int): set<int>
    requires i in s.nodes
  {
    Others(s, i) - s.nodes[i].granted - s.nodes[i].dead
  }

  /** i is collecting, whom it counts as dead is dead, and every other node not yet counted has
      crashed or sent a grant, and is not on record as having deferred. */
  ghost predicate GrantsOut(s: System, i: int) {
    && i in s.nodes && s.nodes[i].live && s.nodes[i].phase == Collecting && CrashesSeen(s, i)
    && forall j :: j in Uncounted(s, i) ==>
         && j !in s.nodes[i].deferredBy
         && (s.nodes[j].live ==> Answer(j, i, Own(s, i).timestamp, true) in s.sent)
  }

  function CountStep(s: System, i: int, j: int): Step
    requires i in s.nodes && j in s.nodes
  {
    if s.nodes[j].live then Receive(i, Answer(j, i, Own(s, i).timestamp, true)) else CountDead(i, j)
  }

  /** i counts one more node, dead or granted, and nothing else changes. */
  ghost predicate Counted(s: System, t: System, i: int, j: int)
    requires i in s.nodes && j in s.nodes
  {
    var p := s.nodes[i];
    var q := if s.nodes[j].live then p.(granted := p.granted + {j}) else p.(dead := p.dead + {j});
    t == System(s.nodes[i := q], s.sent)
  }

  lemma CountIsAllowed(s: System, i: int, j: int)
    requires GrantsOut(s, i) && j in Uncounted(s, i)
    ensures Enabled(STRICT, s, CountStep(s, i, j)) && Counted(s, Apply(s, CountStep(s, i, j)), i, j)
  {
  }

  lemma CountOneMore(s: System, t: System, i: int, j: int)
    requires GrantsOut(s, i) && j in Uncounted(s, i) && Counted(s, t, i, j)
    ensures OnlyMoves(s, t, i) && GrantsOut(t, i) && Uncounted(t, i) == Uncounted(s, i) - {j}
  {
  }

  lemma {:induction false} CountAll(ids: set<int>, n: nat, before: seq<Step>, i: int) returns (after: seq<Step>)
    requires Orderly(ids, n, before) && GrantsOut(After(ids, before), i)
    ensures before <= after && Orderly(ids, n, after) && OnlyMoves(After(ids, before), After(ids, after), i)
    ensures GrantsOut(After(ids, after), i) && Uncounted(After(ids, after), i) == {}
    decreases Uncounted(After(ids, before), i)
  {
    var s := After(ids, before);
    after := before;
    if Uncounted(s, i) != {} {
      var j := Pick(Uncounted(s, i));
      CountIsAllowed(s, i, j);
      var first := Take(ids, n, before, CountStep(s, i, j));
      CountOneMore(s, After(ids, first), i, j);
      after := CountAll(ids, n, first, i);
      MovesCompose(s, After(ids, first), After(ids, after), i);
    }
  }

  /** The count works: when every other node has sent a grant or crashed, the answers can all be
      received and the deaths counted, and then the requester enters by count. */
  lemma GrantsLetIn(ids: set<int>, n: nat, before: seq<Step>, i: int) returns (after: seq<Step>)
    requires Orderly(ids, n, before) && GrantsOut(After(ids, before), i)
    ensures before <= after && Orderly(ids, n, after + [EnterByCount(i)])
    ensures OnlyMoves(After(ids, before), After(ids, after + [EnterByCount(i)]), i)
    ensures InSection(After(ids, after + [EnterByCount(i)]), i)
  {
    after := CountAll(ids, n, before, i);
    var t := After(ids, after);
    InvAlways(FREE, ids, after);
    CountMeansAll(t, i);
    assert BackedOk(t.nodes[i], i, Others(t, i), t.sent);
    assert t.nodes[i].granted + t.nodes[i].dead == Others(t, i);
    forall j | j in Others(t, i) && t.nodes[j].live ensures Behind(t, i, j) {
      EntryClears(t, i, j);
      ClearedOrders(t, i, j);
    }
    EntryMovesOne(t, EnterByCount(i));
    var entered := Take(ids, n, after, EnterByCount(i));
    MovesCompose(After(ids, before), t, After(ids, entered), i);
  }

  // ----- Bounded overtaking -----

  /** Later in a run a node's clock has not gone back, and a request it has then is either
      the one it had or newer than its earlier clock. */
  lemma {:induction false} LaterRequests(r: Rules, s: System, more: seq<Step>, j: int)
    requires IsRun(r, s, more) && j in s.nodes
    ensures j in Run(s, more).nodes && Run(s, more).nodes.Keys == s.nodes.Keys
    ensures var a, b := s.nodes[j].state, Run(s, more).nodes[j].state;
            && a.clock <= b.clock
            && (b.requesting ==> (a.requesting && b.requestTime == a.requestTime) || b.requestTime > a.clock)
  {
    if more != [] {
      var n := |more| - 1;
      LaterRequests(r, s, more[..n], j);
      ClockStep(Run(s, more[..n]).nodes[j], more[n]);
    }
  }

  /** j carries a request that it had not yet made in the earlier state. */
  ghost predicate NewRequest(s: System, u: System, j: int)
    requires j in s.nodes && j in u.nodes
  {
    && u.nodes[j].state.requesting
    && !(s.nodes[j].state.requesting && s.nodes[j].state.requestTime == u.nodes[j].state.requestTime)
  }

  /** Once j has answered i's request, every later request of j comes after it. */
  lemma LaterRequestsLose(r: Rules, ids: set<int>, steps: seq<Step>, more: seq<Step>, m: Message)
    requires IsRun(r, Init(ids), steps) && IsRun(r, Run(Init(ids), steps), more)
    requires m in Run(Init(ids), steps).sent && m.Answer?
    ensures m.src in Run(Init(ids), steps).nodes && m.src in Run(Init(ids), steps + more).nodes
    ensures var s, u := Run(Init(ids), steps), Run(Init(ids), steps + more);
            NewRequest(s, u, m.src) ==> Before(Request(m.dst, m.timestamp), Own(u, m.src))
  {
    InvAlways(r, ids, steps);
    Chain(r, Init(ids), steps, more);
    var s := Run(Init(ids), steps);
    assert MessageOk(s, m);
    LaterRequests(r, s, more, m.src);
  }

  /** So while i still waits, j cannot be in its critical section on a request it made after
      answering i: each other node overtakes i at most once, with the request it already had. */
  lemma OvertakenAtMostOnce(r: Rules, ids: set<int>, steps: seq<Step>, more: seq<Step>, m: Message)
    requires Sound(r) && IsRun(r, Init(ids), steps) && IsRun(r, Run(Init(ids), steps), more)
    requires m in Run(Init(ids), steps).sent && m.Answer?
    ensures m.src in Run(Init(ids), steps).nodes && m.src in Run(Init(ids), steps + more).nodes
    ensures var s, u := Run(Init(ids), steps), Run(Init(ids), steps + more);
            (&& m.dst in u.nodes && m.dst != m.src && Waits(u, m.dst) && Own(u, m.dst).timestamp == m.timestamp
             && NewRequest(s, u, m.src))
            ==> !InSection(u, m.src)
  {
    LaterRequestsLose(r, ids, steps, more, m);
    Chain(r, Init(ids), steps, more);
    StrictAlways(r, ids, steps + more);
    var u := Run(Init(ids), steps + more);
    var i, j := m.dst, m.src;
    if i in u.nodes && i != j && Waits(u, i) && Own(u, i).timestamp == m.timestamp && InSection(u, j) {
      assert AllBehind(u, j) && Behind(u, j, i);
    }
  }
}
