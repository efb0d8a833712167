/** Ricart-Agrawala as a transition system: any finite set of nodes, messages that may be
    delayed, lost, duplicated or stale, crashes, and timeouts. */
module RicartAgrawala {
  import opened RequestState

  datatype Message =
    /** A `RequestCS` call. `reply` marks the calls a release sends as deferred replies:
        the receiver cannot tell, and the sender ignores the answer. */
    | Ask(src: int, dst: int, timestamp: int, reply: bool)
    | Answer(src: int, dst: int, timestamp: int, granted: bool)

  datatype Phase = Idle | Collecting | Critical

  datatype Participant = Participant(
    live: bool,
    state: State,
    phase: Phase,
    granted: set<int>,       // whose grant for the current request has been received
    deferredBy: set<int>,    // whose deferral of the current request has been received
    dead: set<int>,          // whom the current request counts as dead
    handling: set<Message>,  // RequestCS calls between clock update and decision
    outbox: multiset<int>,   // deferred replies started by a release and not yet sent
    deferrals: multiset<int>,// history: one entry for each decision to defer
    answered: multiset<int>  // history: one entry for each deferred reply sent
  )

  /** `sent` only grows: a message may be handled at any later time, again, or never. */
  datatype System = System(nodes: map<int, Participant>, sent: set<Message>)

  /** What an entry on timeout is taken to have waited for: nothing at all; the releases of
      the live nodes known to have deferred the request; every other live node, each of which
      has granted the request, or has deferred it and released since, whether or not its answer
      has been received; or only that no other live node can come before the request any more. */
  datatype Wait = Nothing | KnownDeferrers | Everybody | NobodyAhead

  /** The two timing hypotheses, each of which can be weakened.
      wait:     what an entry on timeout has waited for.
      accurate: only crashed nodes are counted as dead. */
  datatype Rules = Rules(wait: Wait, accurate: bool)

  datatype Step =
    | Begin(i: int)
    | Arrive(i: int, m: Message)
    | Decide(i: int, m: Message)
    | Receive(i: int, m: Message)
    | CountDead(i: int, j: int)
    | EnterByCount(i: int)
    | EnterOnTimeout(i: int)
    | Leave(i: int)
    | SendDeferred(i: int, k: int)
    | Tick(i: int)
    | Observe(i: int, timestamp: int)
    | Crash(i: int)

  const FRESH := Participant(true, INITIAL, Idle, {}, {}, {}, {}, multiset{}, multiset{}, multiset{})

  function Init(ids: set<int>): System {
    System(map i | i in ids :: FRESH, {})
  }

  function Others(s: System, i: int): set<int> {
    s.nodes.Keys - {i}
  }

  function Heard(p: Participant): set<int> {
    p.granted + p.deferredBy + p.dead
  }

  /** The requester's count: grants and dead nodes make up all other nodes. */
  predicate CountReached(s: System, i: int)
    requires i in s.nodes
  {
    |s.nodes[i].granted| + |s.nodes[i].dead| >= |Others(s, i)|
  }

  /** j no longer holds i's request: it has granted it, or has deferred it and released since. */
  predicate Cleared(s: System, i: int, j: int)
    requires i in s.nodes && j in s.nodes
  {
    var own := OwnRequest(s.nodes[i].state, i);
    || Answer(j, i, own.timestamp, true) in s.sent
    || (Answer(j, i, own.timestamp, false) in s.sent && own !in s.nodes[j].state.deferred)
  }

  predicate AllCleared(s: System, i: int)
    requires i in s.nodes
  {
    forall j :: j in Others(s, i) && s.nodes[j].live ==> Cleared(s, i, j)
  }

  predicate DeferrersReleased(s: System, i: int)
    requires i in s.nodes
  {
    forall j :: j in Others(s, i) && s.nodes[j].live && j in s.nodes[i].deferredBy ==>
      OwnRequest(s.nodes[i].state, i) !in s.nodes[j].state.deferred
  }

  /** The outstanding request of a node, or else the one it would make next. */
  function NextRequest(s: State, id: int): Request {
    if s.requesting then OwnRequest(s, id) else OwnRequest(Began(s), id)
  }

  /** No request of j, outstanding or to come, precedes i's. */
  predicate Behind(s: System, i: int, j: int)
    requires i in s.nodes && j in s.nodes
  {
    Before(OwnRequest(s.nodes[i].state, i), NextRequest(s.nodes[j].state, j))
  }

  predicate AllBehind(s: System, i: int)
    requires i in s.nodes
  {
    forall j :: j in Others(s, i) && s.nodes[j].live ==> Behind(s, i, j)
  }

  predicate Waited(wait: Wait, s: System, i: int)
    requires i in s.nodes
  {
    match wait
    case Nothing => true
    case KnownDeferrers => DeferrersReleased(s, i)
    case Everybody => AllCleared(s, i)
    case NobodyAhead => AllBehind(s, i)
  }

  predicate IsEntry(step: Step) {
    step.EnterByCount? || step.EnterOnTimeout?
  }

  predicate Enabled(r: Rules, s: System, step: Step) {
    step.i in s.nodes && s.nodes[step.i].live &&
    var p := s.nodes[step.i];
    match step
    case Begin(i) => p.phase == Idle
    case Arrive(i, m) => m in s.sent && m.Ask? && m.dst == i
    case Decide(i, m) => m in p.handling
    case Receive(i, m) =>
      && p.phase == Collecting
      && m in s.sent && m.Answer? && m.dst == i && m.timestamp == p.state.requestTime
      && m.src in Others(s, i) && m.src !in Heard(p)
    case CountDead(i, j) =>
      && p.phase == Collecting && j in Others(s, i) && j !in Heard(p)
      && (r.accurate ==> !s.nodes[j].live)
    case EnterByCount(i) => p.phase == Collecting && CountReached(s, i)
    case EnterOnTimeout(i) =>
      p.phase == Collecting && !CountReached(s, i) && Waited(r.wait, s, i)
    case Leave(i) => p.phase == Critical
    case SendDeferred(i, k) => k in p.outbox
    case Tick(i) => true
    case Observe(i, t) => true
    case Crash(i) => true
  }

  function Asks(s: System, i: int, timestamp: int): set<Message> {
    set j | j in Others(s, i) :: Ask(i, j, timestamp, false)
  }

  /** What a step makes of the participant that takes it. */
  function Moved(p: Participant, step: Step): Participant {
    match step
    case Begin(i) => p.(state := Began(p.state), phase := Collecting, granted := {}, deferredBy := {}, dead := {})
    case Arrive(i, m) => p.(state := Observed(p.state, m.timestamp), handling := p.handling + {m})
    case Decide(i, m) =>
      var args := Request(m.src, m.timestamp);
      p.(state := Decided(p.state, i, args),
         handling := p.handling - {m},
         deferrals := p.deferrals + if ShouldDefer(p.state, i, args) then multiset{m.src} else multiset{})
    case Receive(i, m) =>
      if m.Answer? && m.granted then p.(granted := p.granted + {m.src}) else p.(deferredBy := p.deferredBy + {m.src})
    case CountDead(i, j) => p.(dead := p.dead + {j})
    case EnterByCount(i) => p.(phase := Critical)
    case EnterOnTimeout(i) => p.(phase := Critical)
    case Leave(i) =>
      p.(state := Released(p.state), phase := Idle, outbox := p.outbox + multiset(Senders(p.state.deferred)))
    case SendDeferred(i, k) =>
      p.(state := p.state.(clock := Ticked(p.state.clock)),
         outbox := p.outbox - multiset{k}, answered := p.answered + multiset{k})
    case Tick(i) => p.(state := p.state.(clock := Ticked(p.state.clock)))
    case Observe(i, t) => p.(state := Observed(p.state, t))
    case Crash(i) => p.(live := false)
  }

  /** The messages a step puts on the network. */
  function Emitted(s: System, p: Participant, step: Step): set<Message> {
    match step
    case Begin(i) => Asks(s, i, Began(p.state).requestTime)
    case Decide(i, m) =>
      if m.Ask? && !m.reply then
        {Answer(i, m.src, m.timestamp, !ShouldDefer(p.state, i, Request(m.src, m.timestamp)))}
      else {}
    case SendDeferred(i, k) => {Ask(i, k, Ticked(p.state.clock), true)}
    case _ => {}
  }

  function Apply(s: System, step: Step): System {
    if step.i !in s.nodes then s
    else
      var p := s.nodes[step.i];
      System(s.nodes[step.i := Moved(p, step)], s.sent + Emitted(s, p, step))
  }

  function Run(s: System, steps: seq<Step>): System {
    if steps == [] then s else Apply(Run(s, steps[..|steps| - 1]), steps[|steps| - 1])
  }

  /** Every step is enabled in the state it is taken in. */
  ghost predicate IsRun(r: Rules, s: System, steps: seq<Step>) {
    steps == [] || (
      var n := |steps| - 1;
      IsRun(r, s, steps[..n]) && Enabled(r, Run(s, steps[..n]), steps[n]))
  }

  /** No hypothesis on timing or failures at all. */
  const FREE := Rules(Nothing, false)

  lemma {:induction false} RunsAreFree(r: Rules, s: System, steps: seq<Step>)
    requires IsRun(r, s, steps)
    ensures IsRun(FREE, s, steps)
  {
    if steps != [] {
      RunsAreFree(r, s, steps[..|steps| - 1]);
    }
  }

  lemma Extend(r: Rules, s: System, steps: seq<Step>, step: Step)
    requires IsRun(r, s, steps) && Enabled(r, Run(s, steps), step)
    ensures IsRun(r, s, steps + [step]) && Run(s, steps + [step]) == Apply(Run(s, steps), step)
  {
    assert (steps + [step])[..|steps|] == steps;
  }

  /** Steps other than asking, leaving and crashing keep a node alive and its request as it is. */
  lemma QuietStep(p: Participant, step: Step)
    requires !step.Begin? && !step.Leave? && !step.Crash?
    ensures var q := Moved(p, step);
            && q.live == p.live && q.state.requesting == p.state.requesting
            && q.state.requestTime == p.state.requestTime
            && (p.phase == Critical ==> q.phase == Critical)
            && (!step.EnterByCount? && !step.EnterOnTimeout? ==> q.phase == p.phase)
            && (step.EnterByCount? || step.EnterOnTimeout? ==> q.phase == Critical)
  {
  }

  /** A step's clock never goes back, and a request it makes is newer than the clock before;
      nobody comes back from a crash. */
  lemma ClockStep(p: Participant, step: Step)
    ensures var a, b := p.state, Moved(p, step).state;
            && a.clock <= b.clock
            && (b.requesting ==> (a.requesting && b.requestTime == a.requestTime) || b.requestTime > a.clock)
            && (Moved(p, step).live ==> p.live)
  {
  }

  /** Runs compose. */
  lemma {:induction false} Chain(r: Rules, s: System, steps: seq<Step>, more: seq<Step>)
    requires IsRun(r, s, steps)
    ensures Run(s, steps + more) == Run(Run(s, steps), more)
    ensures IsRun(r, s, steps + more) <==> IsRun(r, Run(s, steps), more)
  {
    if more == [] {
      assert steps + more == steps;
    } else {
      var n := |more| - 1;
      Chain(r, s, steps, more[..n]);
      var all := steps + more;
      assert all[..|all| - 1] == steps + more[..n];
    }
  }

  ghost predicate Exclusive(s: System) {
    forall i, j :: i in s.nodes && j in s.nodes && InSection(s, i) && InSection(s, j) ==> i == j
  }

  predicate InSection(s: System, i: int)
    requires i in s.nodes
  {
    s.nodes[i].live && s.nodes[i].phase == Critical
  }
}
