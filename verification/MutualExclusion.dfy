/** Safety of the mutual-exclusion protocol over all runs. */
module MutualExclusion {
  import opened Collections
  import opened RequestState
  import opened RicartAgrawala

  // ----- Invariants that need no hypothesis on timing or failures -----

  /** Once j has answered i's request of time t, j's clock is past t, and an own request of
      j comes after (t, i) unless j is still holding (t, i) in its queue. */
  ghost predicate AnswerOk(j: State, m: Message)
    requires m.Answer?
  {
    && m.timestamp < j.clock
    && (j.requesting ==>
          || Before(Request(m.dst, m.timestamp), OwnRequest(j, m.src))
          || (!m.granted && Request(m.dst, m.timestamp) in j.deferred))
  }

  ghost predicate MessageOk(s: System, m: Message) {
    match m
    case Ask(src, dst, t, reply) => !reply ==> src != dst
    case Answer(src, _, _, _) => src in s.nodes && AnswerOk(s.nodes[src].state, m)
  }

  /** What a participant knows of its own. */
  ghost predicate LocalOk(p: Participant, i: int) {
    && (p.state.requesting <==> p.phase != Idle)
    && (p.state.requesting ==> p.state.requestTime <= p.state.clock)
    && QueueInvariant(p.state, i)
    && p.deferrals == multiset(Senders(p.state.deferred)) + p.outbox + p.answered
  }

  /** What a participant knows that is backed by messages. */
  ghost predicate BackedOk(p: Participant, i: int, others: set<int>, sent: set<Message>) {
    && (forall m :: m in p.handling ==> m.Ask? && m in sent && m.dst == i && m.timestamp < p.state.clock)
    && (p.phase != Idle ==> CollectedOk(p, i, others, sent))
  }

  ghost predicate CollectedOk(p: Participant, i: int, others: set<int>, sent: set<Message>) {
    && (forall j :: j in p.granted ==> Answer(j, i, p.state.requestTime, true) in sent)
    && (forall j :: j in p.deferredBy ==> Answer(j, i, p.state.requestTime, false) in sent)
    && (forall j :: j in others ==> Ask(i, j, p.state.requestTime, false) in sent)
    && Heard(p) <= others
    && p.granted !! p.dead
  }

  ghost predicate Inv(s: System) {
    && (forall m :: m in s.sent ==> MessageOk(s, m))
    && (forall i :: i in s.nodes ==> LocalOk(s.nodes[i], i) && BackedOk(s.nodes[i], i, Others(s, i), s.sent))
  }

  lemma AnswerKept(p: Participant, step: Step, m: Message)
    requires m.Answer? && m.src == step.i && AnswerOk(p.state, m)
    ensures AnswerOk(Moved(p, step).state, m)
  {
    if step.Decide? {
      assert forall e :: e in p.state.deferred ==> e in Moved(p, step).state.deferred;
    }
  }

  lemma NewAnswerOk(p: Participant, i: int, m: Message)
    requires m.Ask? && m.dst == i && m.src != i && m.timestamp < p.state.clock
    ensures var args := Request(m.src, m.timestamp);
            AnswerOk(Moved(p, Decide(i, m)).state, Answer(i, m.src, m.timestamp, !ShouldDefer(p.state, i, args)))
  {
  }

  lemma MessageKept(r: Rules, s: System, step: Step, m: Message)
    requires Inv(s) && Enabled(r, s, step) && m in Apply(s, step).sent
    ensures MessageOk(Apply(s, step), m)
  {
    var p := s.nodes[step.i];
    if m in s.sent {
      assert MessageOk(s, m);
      if m.Answer? && m.src == step.i {
        AnswerKept(p, step, m);
      }
    } else if step.Decide? {
      assert BackedOk(p, step.i, Others(s, step.i), s.sent);
      assert step.m in s.sent && MessageOk(s, step.m);
      NewAnswerOk(p, step.i, step.m);
    }
  }

  lemma DeferralCounted(p: Participant, i: int, m: Message)
    requires LocalOk(p, i)
    ensures LocalOk(Moved(p, Decide(i, m)), i)
  {
    var args := Request(m.src, m.timestamp);
    QueueInvariantKept(p.state, i, args);
    if ShouldDefer(p.state, i, args) {
      assert Senders(p.state.deferred + [args]) == Senders(p.state.deferred) + [m.src];
    }
  }

  lemma ReleaseCounted(p: Participant, i: int)
    requires LocalOk(p, i)
    ensures LocalOk(Moved(p, Leave(i)), i)
  {
    assert Senders([]) == [];
  }

  lemma ReplyCounted(p: Participant, i: int, k: int)
    requires LocalOk(p, i) && k in p.outbox
    ensures LocalOk(Moved(p, SendDeferred(i, k)), i)
  {
    MoveOne(p.deferrals, multiset(Senders(p.state.deferred)), p.outbox, p.answered, k);
  }

  lemma MoveOne(total: multiset<int>, queued: multiset<int>, started: multiset<int>, done: multiset<int>, k: int)
    requires total == queued + started + done && k in started
    ensures total == queued + (started - multiset{k}) + (done + multiset{k})
  {
  }

  lemma OtherStepLocal(p: Participant, step: Step)
    requires LocalOk(p, step.i) && !step.Decide? && !step.Leave? && !step.SendDeferred?
    requires step.Begin? ==> p.phase == Idle
    requires step.EnterByCount? || step.EnterOnTimeout? ==> p.phase == Collecting
    ensures LocalOk(Moved(p, step), step.i)
  {
    if step.Begin? {
      QueueInvariantKept(p.state, step.i, Request(0, 0));
    }
  }

  lemma LocalKept(r: Rules, s: System, step: Step)
    requires Inv(s) && Enabled(r, s, step)
    ensures LocalOk(Moved(s.nodes[step.i], step), step.i)
  {
    var p := s.nodes[step.i];
    assert LocalOk(p, step.i);
    if step.Decide? {
      DeferralCounted(p, step.i, step.m);
    } else if step.Leave? {
      ReleaseCounted(p, step.i);
    } else if step.SendDeferred? {
      ReplyCounted(p, step.i, step.k);
    } else {
      OtherStepLocal(p, step);
    }
  }

  lemma HandlingKept(p: Participant, step: Step, sent: set<Message>)
    requires forall m :: m in p.handling ==> m.Ask? && m in sent && m.dst == step.i && m.timestamp < p.state.clock
    requires step.Arrive? ==> step.m in sent && step.m.Ask? && step.m.dst == step.i
    ensures var q := Moved(p, step);
            forall m :: m in q.handling ==> m.Ask? && m in sent && m.dst == step.i && m.timestamp < q.state.clock
  {
  }

  /** The same collection for the same request. */
  ghost predicate SameCollection(p: Participant, q: Participant) {
    && q.granted == p.granted && q.deferredBy == p.deferredBy && q.dead == p.dead
    && q.state.requestTime == p.state.requestTime
  }

  lemma CollectionUntouched(p: Participant, step: Step)
    requires !step.Begin? && !step.Receive? && !step.CountDead?
    ensures SameCollection(p, Moved(p, step))
    ensures Moved(p, step).phase != Idle ==> p.phase != Idle || IsEntry(step)
  {
    match step {
      case Arrive(_, _) =>
      case Decide(_, _) =>
      case EnterByCount(_) =>
      case EnterOnTimeout(_) =>
      case Leave(_) =>
      case SendDeferred(_, _) =>
      case Tick(_) =>
      case Observe(_, _) =>
      case Crash(_) =>
    }
  }

  lemma ReceiveCollects(p: Participant, i: int, m: Message, others: set<int>, sent: set<Message>)
    requires CollectedOk(p, i, others, sent) && m in sent && m.Answer? && m.dst == i
    requires m.timestamp == p.state.requestTime && m.src in others && m.src !in Heard(p)
    ensures CollectedOk(Moved(p, Receive(i, m)), i, others, sent)
  {
    assert m == Answer(m.src, i, p.state.requestTime, m.granted);
  }

  lemma CollectedKept(r: Rules, s: System, step: Step)
    requires Inv(s) && Enabled(r, s, step) && !step.Begin?
    ensures var q := Moved(s.nodes[step.i], step);
            q.phase != Idle ==> CollectedOk(q, step.i, Others(s, step.i), s.sent)
  {
    var p, i := s.nodes[step.i], step.i;
    assert BackedOk(p, i, Others(s, i), s.sent);
    if step.Receive? {
      ReceiveCollects(p, i, step.m, Others(s, i), s.sent);
    } else if !step.CountDead? {
      CollectionUntouched(p, step);
    }
  }

  lemma BeginCollects(s: System, i: int)
    requires i in s.nodes
    ensures CollectedOk(Moved(s.nodes[i], Begin(i)), i, Others(s, i), Asks(s, i, Began(s.nodes[i].state).requestTime))
  {
  }

  lemma CollectedMore(p: Participant, i: int, others: set<int>, sent: set<Message>, more: set<Message>)
    requires CollectedOk(p, i, others, sent)
    ensures CollectedOk(p, i, others, sent + more) && CollectedOk(p, i, others, more + sent)
  {
  }

  lemma BackedKept(r: Rules, s: System, step: Step)
    requires Inv(s) && Enabled(r, s, step)
    ensures var p := s.nodes[step.i];
            BackedOk(Moved(p, step), step.i, Others(s, step.i), s.sent + Emitted(s, p, step))
  {
    var p, i, others := s.nodes[step.i], step.i, Others(s, step.i);
    var q, emitted := Moved(p, step), Emitted(s, p, step);
    assert BackedOk(p, i, others, s.sent);
    HandlingKept(p, step, s.sent);
    if step.Begin? {
      BeginCollects(s, i);
      CollectedMore(q, i, others, emitted, s.sent);
    } else {
      CollectedKept(r, s, step);
      if q.phase != Idle {
        CollectedMore(q, i, others, s.sent, emitted);
      }
    }
  }

  lemma BystanderKept(s: System, step: Step, i: int)
    requires Inv(s) && step.i in s.nodes && i in s.nodes && i != step.i
    ensures var t := Apply(s, step);
            t.nodes[i] == s.nodes[i] && LocalOk(t.nodes[i], i) && BackedOk(t.nodes[i], i, Others(s, i), t.sent)
  {
    assert LocalOk(s.nodes[i], i) && BackedOk(s.nodes[i], i, Others(s, i), s.sent);
    var p, emitted := s.nodes[i], Emitted(s, s.nodes[step.i], step);
    if p.phase != Idle {
      CollectedMore(p, i, Others(s, i), s.sent, emitted);
    }
  }

  lemma InvKept(r: Rules, s: System, step: Step)
    requires Inv(s) && Enabled(r, s, step)
    ensures Inv(Apply(s, step))
  {
    var t := Apply(s, step);
    forall m | m in t.sent ensures MessageOk(t, m) {
      MessageKept(r, s, step, m);
    }
    forall i | i in t.nodes ensures LocalOk(t.nodes[i], i) && BackedOk(t.nodes[i], i, Others(t, i), t.sent) {
      assert Others(t, i) == Others(s, i);
      if i == step.i {
        LocalKept(r, s, step);
        BackedKept(r, s, step);
      } else {
        BystanderKept(s, step, i);
      }
    }
  }

  lemma {:induction false} InvAlways(r: Rules, ids: set<int>, steps: seq<Step>)
    requires IsRun(r, Init(ids), steps)
    ensures Inv(Run(Init(ids), steps)) && Run(Init(ids), steps).nodes.Keys == ids
  {
    if steps == [] {
      assert Senders([]) == [];
    } else {
      var n := |steps| - 1;
      InvAlways(r, ids, steps[..n]);
      InvKept(r, Run(Init(ids), steps[..n]), steps[n]);
    }
  }

  // ----- Grants alone order requests, whatever the network and the timeouts do -----

  ghost predicate HasGrant(s: System, i: int, j: int)
    requires i in s.nodes
  {
    s.nodes[i].state.requesting && Answer(j, i, s.nodes[i].state.requestTime, true) in s.sent
  }

  lemma GrantOrders(s: System, i: int, j: int)
    requires Inv(s) && i in s.nodes && j in s.nodes && HasGrant(s, i, j) && s.nodes[j].state.requesting
    ensures Before(OwnRequest(s.nodes[i].state, i), OwnRequest(s.nodes[j].state, j))
  {
    assert MessageOk(s, Answer(j, i, s.nodes[i].state.requestTime, true));
  }

  /** No two outstanding requests are ever granted by each other: no assumption on delays,
      losses, crashes, timeouts or the spurious calls that serve as deferred replies. */
  lemma {:induction false} NoMutualGrants(r: Rules, ids: set<int>, steps: seq<Step>, i: int, j: int)
    requires IsRun(r, Init(ids), steps) && i in ids && j in ids
    ensures Run(Init(ids), steps).nodes.Keys == ids
    ensures !(HasGrant(Run(Init(ids), steps), i, j) && HasGrant(Run(Init(ids), steps), j, i))
  {
    InvAlways(r, ids, steps);
    var s := Run(Init(ids), steps);
    if HasGrant(s, i, j) && HasGrant(s, j, i) {
      GrantOrders(s, i, j);
      GrantOrders(s, j, i);
    }
  }

  /** In every reachable state a queue belongs to an outstanding request and holds only later
      requests, and every deferral so far is queued, about to be answered, or answered. */
  lemma {:induction false} QueuesAlways(r: Rules, ids: set<int>, steps: seq<Step>, i: int)
    requires IsRun(r, Init(ids), steps) && i in ids
    ensures Run(Init(ids), steps).nodes.Keys == ids
    ensures QueueInvariant(Run(Init(ids), steps).nodes[i].state, i)
    ensures var p := Run(Init(ids), steps).nodes[i];
            && p.deferrals == multiset(Senders(p.state.deferred)) + p.outbox + p.answered
            && (p.phase == Idle && p.outbox == multiset{} ==> p.deferrals == p.answered)
  {
    InvAlways(r, ids, steps);
    var p := Run(Init(ids), steps).nodes[i];
    assert LocalOk(p, i);
    if p.phase == Idle {
      assert Senders(p.state.deferred) == [];
    }
  }

  // ----- Every deferral is answered by one call -----

  /** The timestamps of the calls i has sent to k as deferred replies. */
  ghost function ReplyTimes(s: System, i: int, k: int): set<int> {
    set m | m in s.sent && m.Ask? && m.reply && m.src == i && m.dst == k :: m.timestamp
  }

  /** Every call comes from a node whose clock has reached its timestamp. */
  ghost predicate CallsPast(s: System) {
    forall m :: m in s.sent && m.Ask? ==> m.src in s.nodes && m.timestamp <= s.nodes[m.src].state.clock
  }

  lemma CallsPastKept(r: Rules, s: System, step: Step)
    requires CallsPast(s) && Enabled(r, s, step)
    ensures CallsPast(Apply(s, step))
  {
    ClockStep(s.nodes[step.i], step);
  }

  lemma ReplyTimesKept(r: Rules, s: System, step: Step, i: int, k: int)
    requires CallsPast(s) && Enabled(r, s, step) && i in s.nodes
    ensures var t := Apply(s, step);
            if step == SendDeferred(i, k)
            then ReplyTimes(t, i, k) == ReplyTimes(s, i, k) + {t.nodes[i].state.clock}
                 && t.nodes[i].state.clock !in ReplyTimes(s, i, k)
            else ReplyTimes(t, i, k) == ReplyTimes(s, i, k)
  {
    var t := Apply(s, step);
    if step == SendDeferred(i, k) {
      assert Ask(i, k, t.nodes[i].state.clock, true) in t.sent;
    }
  }

  lemma {:induction false} CallsPastAlways(r: Rules, ids: set<int>, steps: seq<Step>)
    requires IsRun(r, Init(ids), steps)
    ensures Run(Init(ids), steps).nodes.Keys == ids && CallsPast(Run(Init(ids), steps))
  {
    if steps != [] {
      var n := |steps| - 1;
      CallsPastAlways(r, ids, steps[..n]);
      CallsPastKept(r, Run(Init(ids), steps[..n]), steps[n]);
    }
  }

  lemma AnsweredStep(r: Rules, s: System, step: Step, i: int, k: int)
    requires CallsPast(s) && Enabled(r, s, step) && i in s.nodes
    requires s.nodes[i].answered[k] == |ReplyTimes(s, i, k)|
    ensures Apply(s, step).nodes[i].answered[k] == |ReplyTimes(Apply(s, step), i, k)|
  {
    ReplyTimesKept(r, s, step, i, k);
  }

  lemma {:induction false} RepliesCounted(r: Rules, ids: set<int>, steps: seq<Step>, i: int, k: int)
    requires IsRun(r, Init(ids), steps) && i in ids
    ensures i in Run(Init(ids), steps).nodes
    ensures Run(Init(ids), steps).nodes[i].answered[k] == |ReplyTimes(Run(Init(ids), steps), i, k)|
  {
    if steps == [] {
      assert ReplyTimes(Init(ids), i, k) == {};
    } else {
      var n := |steps| - 1;
      CallsPastAlways(r, ids, steps[..n]);
      RepliesCounted(r, ids, steps[..n], i, k);
      AnsweredStep(r, Run(Init(ids), steps[..n]), steps[n], i, k);
    }
  }

  /** For every pair of nodes, the deferrals so far are those queued, those whose reply has been
      started, and as many different calls on the network, under as many different timestamps. */
  lemma {:induction false} RepliesAreCalls(r: Rules, ids: set<int>, steps: seq<Step>, i: int, k: int)
    requires IsRun(r, Init(ids), steps) && i in ids
    ensures i in Run(Init(ids), steps).nodes
    ensures var s := Run(Init(ids), steps);
            var p := s.nodes[i];
            p.deferrals[k] == multiset(Senders(p.state.deferred))[k] + p.outbox[k] + |ReplyTimes(s, i, k)|
  {
    QueuesAlways(r, ids, steps, i);
    RepliesCounted(r, ids, steps, i, k);
  }

  // ----- Entries with nobody ahead keep everybody else out -----

  lemma ClearedOrders(s: System, i: int, j: int)
    requires Inv(s) && i in s.nodes && j in s.nodes && Cleared(s, i, j)
    ensures Behind(s, i, j)
  {
    var t := s.nodes[i].state.requestTime;
    if Answer(j, i, t, true) in s.sent {
      assert MessageOk(s, Answer(j, i, t, true));
    } else {
      assert MessageOk(s, Answer(j, i, t, false));
    }
  }

  /** A node's next request only ever moves back in the order. */
  lemma NextIsLater(p: Participant, step: Step, own: Request)
    requires LocalOk(p, step.i) && Before(own, NextRequest(p.state, step.i))
    ensures Before(own, NextRequest(Moved(p, step).state, step.i))
  {
    ClockStep(p, step);
  }

  lemma BehindKept(s: System, step: Step, i: int, j: int)
    requires Inv(s) && step.i in s.nodes && i in s.nodes && j in s.nodes && i != j && Behind(s, i, j)
    requires step.i == i ==> Moved(s.nodes[i], step).state.requestTime == s.nodes[i].state.requestTime
    ensures Behind(Apply(s, step), i, j)
  {
    if step.i == j {
      NextIsLater(s.nodes[j], step, OwnRequest(s.nodes[i].state, i));
    }
  }

  /** Whoever is inside has no live node ahead of it. */
  ghost predicate EntriesBacked(s: System) {
    forall i :: i in s.nodes && s.nodes[i].phase == Critical ==> AllBehind(s, i)
  }

  lemma EnteredOrWasIn(p: Participant, step: Step)
    requires Moved(p, step).phase == Critical
    ensures p.phase == Critical || IsEntry(step)
    ensures p.phase == Critical && !step.Begin? ==> Moved(p, step).state.requestTime == p.state.requestTime
    ensures IsEntry(step) ==> Moved(p, step).state.requestTime == p.state.requestTime
    ensures !step.Begin?
  {
  }

  lemma StillBehind(s: System, step: Step, i: int, j: int)
    requires Inv(s) && EntriesBacked(s) && step.i in s.nodes && (IsEntry(step) ==> AllBehind(s, step.i))
    requires i in s.nodes && j in Others(s, i)
    requires Apply(s, step).nodes[i].phase == Critical && Apply(s, step).nodes[j].live
    ensures Behind(Apply(s, step), i, j)
  {
    ClockStep(s.nodes[j], step);
    if step.i == i {
      EnteredOrWasIn(s.nodes[i], step);
    }
    assert AllBehind(s, i);
    BehindKept(s, step, i, j);
  }

  lemma EntriesBackedKept(s: System, step: Step)
    requires Inv(s) && EntriesBacked(s) && step.i in s.nodes && (IsEntry(step) ==> AllBehind(s, step.i))
    ensures EntriesBacked(Apply(s, step))
  {
    var t := Apply(s, step);
    forall i | i in t.nodes && t.nodes[i].phase == Critical ensures AllBehind(t, i) {
      forall j | j in Others(t, i) && t.nodes[j].live ensures Behind(t, i, j) {
        StillBehind(s, step, i, j);
      }
    }
  }

  lemma InsideIsFirst(s: System, i: int, j: int)
    requires Inv(s) && EntriesBacked(s) && i in s.nodes && s.nodes[i].phase == Critical
    requires j in Others(s, i) && s.nodes[j].live && s.nodes[j].phase != Idle
    ensures Before(OwnRequest(s.nodes[i].state, i), OwnRequest(s.nodes[j].state, j))
  {
    assert LocalOk(s.nodes[j], j);
    assert AllBehind(s, i) && Behind(s, i, j);
  }

  lemma BackedExcludes(s: System)
    requires Inv(s) && EntriesBacked(s)
    ensures Exclusive(s)
  {
    forall i, j | i in s.nodes && j in s.nodes && InSection(s, i) && InSection(s, j) ensures i == j {
      if i != j {
        InsideIsFirst(s, i, j);
        InsideIsFirst(s, j, i);
      }
    }
  }

  /** From the n-th step on, every entry, by count or on timeout, is made with nobody ahead. */
  ghost predicate Careful(ids: set<int>, n: nat, steps: seq<Step>) {
    forall k {:trigger steps[k]} :: n <= k < |steps| && IsEntry(steps[k]) ==>
      AheadOfAll(Run(Init(ids), steps[..k]), steps[k].i)
  }

  ghost predicate AheadOfAll(s: System, i: int) {
    i in s.nodes && AllBehind(s, i)
  }

  lemma CarefulPrefix(ids: set<int>, n: nat, steps: seq<Step>, m: nat)
    requires Careful(ids, n, steps) && n <= m <= |steps|
    ensures Careful(ids, n, steps[..m]) && steps[..m][..n] == steps[..n]
  {
    assert forall k {:trigger steps[..m][k]} :: 0 <= k < m ==> steps[..m][..k] == steps[..k];
  }

  lemma {:induction false} CarefulKept(ids: set<int>, n: nat, steps: seq<Step>)
    requires n <= |steps| && IsRun(FREE, Init(ids), steps) && Careful(ids, n, steps)
    requires EntriesBacked(Run(Init(ids), steps[..n]))
    ensures EntriesBacked(Run(Init(ids), steps))
  {
    if n == |steps| {
      assert steps[..n] == steps;
    } else {
      var m := |steps| - 1;
      CarefulPrefix(ids, n, steps, m);
      CarefulKept(ids, n, steps[..m]);
      InvAlways(FREE, ids, steps[..m]);
      EntriesBackedKept(Run(Init(ids), steps[..m]), steps[m]);
    }
  }

  /** With no hypothesis but that entries are made with nobody ahead: mutual exclusion, whatever
      was granted, deferred or counted as dead, rightly or wrongly. */
  lemma CarefulRunsExclude(ids: set<int>, steps: seq<Step>)
    requires IsRun(FREE, Init(ids), steps) && Careful(ids, 0, steps)
    ensures Exclusive(Run(Init(ids), steps))
  {
    CarefulKept(ids, 0, steps);
    InvAlways(FREE, ids, steps);
    BackedExcludes(Run(Init(ids), steps));
  }

  // ----- Mutual exclusion under the two timing hypotheses -----

  /** An entry on timeout waits long enough, and only crashed nodes are counted as dead. */
  predicate Sound(r: Rules) {
    r.accurate && (r.wait == Everybody || r.wait == NobodyAhead)
  }

  const STRICT := Rules(Everybody, true)

  ghost predicate NoneLive(s: System, dead: set<int>) {
    forall j :: j in dead && j in s.nodes ==> !s.nodes[j].live
  }

  ghost predicate CrashesSeen(s: System, i: int)
    requires i in s.nodes
  {
    s.nodes[i].phase != Idle ==> NoneLive(s, s.nodes[i].dead)
  }

  ghost predicate StrictInv(s: System) {
    && Inv(s) && EntriesBacked(s)
    && forall i :: i in s.nodes ==> CrashesSeen(s, i)
  }

  lemma CountMeansAll(s: System, i: int)
    requires Inv(s) && i in s.nodes && s.nodes[i].phase != Idle
    ensures CountReached(s, i) <==> s.nodes[i].granted + s.nodes[i].dead == Others(s, i)
  {
    var p := s.nodes[i];
    assert BackedOk(p, i, Others(s, i), s.sent);
    assert |p.granted + p.dead| == |p.granted| + |p.dead|;
    SubsetSize(p.granted + p.dead, Others(s, i));
  }

  lemma EntryClears(s: System, i: int, j: int)
    requires Inv(s) && i in s.nodes && CrashesSeen(s, i) && s.nodes[i].phase == Collecting && CountReached(s, i)
    requires j in Others(s, i) && s.nodes[j].live
    ensures Cleared(s, i, j)
  {
    assert BackedOk(s.nodes[i], i, Others(s, i), s.sent);
    CountMeansAll(s, i);
    assert j in s.nodes[i].granted + s.nodes[i].dead;
  }

  /** Under the hypotheses every entry is made with nobody ahead. */
  lemma EntryIsBehind(r: Rules, s: System, step: Step)
    requires Sound(r) && StrictInv(s) && Enabled(r, s, step) && IsEntry(step)
    ensures AllBehind(s, step.i)
  {
    var i := step.i;
    forall j | j in Others(s, i) && s.nodes[j].live ensures Behind(s, i, j) {
      if step.EnterByCount? {
        EntryClears(s, i, j);
        ClearedOrders(s, i, j);
      } else if r.wait == Everybody {
        assert Cleared(s, i, j);
        ClearedOrders(s, i, j);
      }
    }
  }

  lemma NobodyReturns(s: System, step: Step, dead: set<int>)
    requires step.i in s.nodes && NoneLive(s, dead)
    ensures NoneLive(Apply(s, step), dead)
  {
    ClockStep(s.nodes[step.i], step);
  }

  lemma CrashesSeenKept(r: Rules, s: System, step: Step, i: int)
    requires r.accurate && Enabled(r, s, step) && i in s.nodes && CrashesSeen(s, i)
    ensures CrashesSeen(Apply(s, step), i)
  {
    if step.i != i {
      OtherCrashesSeen(s, step, i);
    } else if step.CountDead? {
      NobodyReturns(s, step, s.nodes[i].dead + {step.j});
    } else if !step.Begin? {
      DeadSetKept(s.nodes[i], step);
      if Apply(s, step).nodes[i].phase != Idle {
        NobodyReturns(s, step, s.nodes[i].dead);
      }
    }
  }

  lemma OtherCrashesSeen(s: System, step: Step, i: int)
    requires step.i in s.nodes && step.i != i && i in s.nodes && CrashesSeen(s, i)
    ensures CrashesSeen(Apply(s, step), i)
  {
    if s.nodes[i].phase != Idle {
      NobodyReturns(s, step, s.nodes[i].dead);
    }
  }

  lemma DeadSetKept(p: Participant, step: Step)
    requires !step.Begin? && !step.CountDead?
    ensures Moved(p, step).dead == p.dead
    ensures Moved(p, step).phase != Idle ==> p.phase != Idle || IsEntry(step)
  {
  }

  lemma StrictKept(r: Rules, s: System, step: Step)
    requires Sound(r) && StrictInv(s) && Enabled(r, s, step)
    ensures StrictInv(Apply(s, step))
  {
    InvKept(r, s, step);
    if IsEntry(step) {
      EntryIsBehind(r, s, step);
    }
    EntriesBackedKept(s, step);
    forall i | i in s.nodes ensures CrashesSeen(Apply(s, step), i) {
      CrashesSeenKept(r, s, step, i);
    }
  }

  lemma {:induction false} StrictAlways(r: Rules, ids: set<int>, steps: seq<Step>)
    requires Sound(r) && IsRun(r, Init(ids), steps)
    ensures StrictInv(Run(Init(ids), steps))
  {
    InvAlways(r, ids, steps);
    if steps != [] {
      var n := |steps| - 1;
      StrictAlways(r, ids, steps[..n]);
      StrictKept(r, Run(Init(ids), steps[..n]), steps[n]);
    }
  }

  /** Whoever is inside has been cleared by every other live node. */
  ghost predicate EntriesCleared(s: System) {
    forall i :: i in s.nodes && s.nodes[i].phase == Critical ==> AllCleared(s, i)
  }

  lemma ClearedKept(s: System, step: Step, i: int, j: int)
    requires Inv(s) && step.i in s.nodes && i in s.nodes && j in s.nodes && i != j && Cleared(s, i, j)
    requires step.i == i ==> Moved(s.nodes[i], step).state.requestTime == s.nodes[i].state.requestTime
    ensures Cleared(Apply(s, step), i, j)
  {
    ClearedOrders(s, i, j);
    var own := OwnRequest(s.nodes[i].state, i);
    if step.i == j && own !in s.nodes[j].state.deferred {
      NotQueuedAgain(s.nodes[j], step, own);
    }
  }

  lemma NotQueuedAgain(p: Participant, step: Step, own: Request)
    requires own !in p.state.deferred && Before(own, NextRequest(p.state, step.i))
    ensures own !in Moved(p, step).state.deferred
  {
  }

  lemma StillCleared(s: System, step: Step, i: int, j: int)
    requires StrictInv(s) && EntriesCleared(s) && Enabled(STRICT, s, step) && i in s.nodes && j in Others(s, i)
    requires Apply(s, step).nodes[i].phase == Critical && Apply(s, step).nodes[j].live
    ensures Cleared(Apply(s, step), i, j)
  {
    ClockStep(s.nodes[j], step);
    if step.i == i {
      EnteredOrWasIn(s.nodes[i], step);
    }
    if s.nodes[i].phase == Critical {
      assert AllCleared(s, i);
    } else if step.EnterByCount? {
      EntryClears(s, i, j);
    }
    ClearedKept(s, step, i, j);
  }

  /** In every reachable state under both hypotheses whoever is inside has a grant from every
      other live node, or a deferral that has been followed by a release. */
  lemma {:induction false} ClearedAlways(ids: set<int>, steps: seq<Step>)
    requires IsRun(STRICT, Init(ids), steps)
    ensures EntriesCleared(Run(Init(ids), steps))
  {
    if steps != [] {
      var n := |steps| - 1;
      var s, t := Run(Init(ids), steps[..n]), Run(Init(ids), steps);
      StrictAlways(STRICT, ids, steps[..n]);
      ClearedAlways(ids, steps[..n]);
      forall i | i in t.nodes && t.nodes[i].phase == Critical ensures AllCleared(t, i) {
        forall j | j in Others(t, i) && t.nodes[j].live ensures Cleared(t, i, j) {
          StillCleared(s, steps[n], i, j);
        }
      }
    }
  }

  /** No two live nodes are ever between entry and release. */
  lemma {:induction false} ExclusionAlways(r: Rules, ids: set<int>, steps: seq<Step>)
    requires Sound(r) && IsRun(r, Init(ids), steps)
    ensures Exclusive(Run(Init(ids), steps))
  {
    StrictAlways(r, ids, steps);
    BackedExcludes(Run(Init(ids), steps));
  }
}
