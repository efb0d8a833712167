/** The calls of node objects and the steps of the protocol: each has the same effect on the
    node's state and sends the same messages. The hypotheses repeat the methods' own contracts. */
module NodeSteps {
  import opened Collections
  import opened RequestState
  import opened RicartAgrawala

  /** `RequestCS`: its arrival and its decision, and the answer that goes back. The sender of a
      deferred reply ignores the answer. */
  lemma ReceiptIsTwoSteps(s: System, p: Participant, id: int, args: Request, reply: bool, now: State, granted: bool)
    requires now.requesting == p.state.requesting && now.requestTime == p.state.requestTime
    requires now.clock > p.state.clock && now.clock > args.timestamp
    requires now.clock - 1 == p.state.clock || now.clock - 1 == args.timestamp
    requires granted <==> !(now.requesting && (args.timestamp > now.requestTime ||
                                               (args.timestamp == now.requestTime && args.nodeID > id)))
    requires now.deferred == if granted then p.state.deferred else p.state.deferred + [args]
    ensures var m := Ask(args.nodeID, id, args.timestamp, reply);
            var q := Moved(p, Arrive(id, m));
            && m in q.handling && Emitted(s, p, Arrive(id, m)) == {}
            && Moved(q, Decide(id, m)).state == now
            && Emitted(s, q, Decide(id, m)) ==
               if reply then {} else {Answer(id, args.nodeID, args.timestamp, granted)}
  {
  }

  /** The start of `RequestCriticalSection`: one request to every other node under the new time,
      and nothing collected yet. */
  lemma RequestIsAStep(s: System, p: Participant, id: int, now: State)
    requires now.requesting && now.requestTime == now.clock == p.state.clock + 1 && now.deferred == p.state.deferred
    ensures var q := Moved(p, Begin(id));
            && q.state == now && q.phase == Collecting && Heard(q) == {} && q.live == p.live
            && forall m :: m in Emitted(s, p, Begin(id)) <==>
                 m.Ask? && !m.reply && m.src == id && m.timestamp == now.requestTime && m.dst in Others(s, id)
  {
    assert forall j :: j in Others(s, id) ==> Ask(id, j, now.requestTime, false) in Emitted(s, p, Begin(id));
  }

  /** `ReleaseCriticalSection`: the deferred replies it starts are all in the outbox. */
  lemma ReleaseIsAStep(s: System, p: Participant, id: int, now: State, replies: seq<int>)
    requires !now.requesting && now.deferred == []
    requires now.clock == p.state.clock && now.requestTime == p.state.requestTime
    requires |replies| == |p.state.deferred|
    requires forall i :: 0 <= i < |replies| ==> replies[i] == p.state.deferred[i].nodeID
    ensures var q := Moved(p, Leave(id));
            && q.state == now && q.phase == Idle && q.outbox == p.outbox + multiset(replies)
            && Emitted(s, p, Leave(id)) == {}
  {
    assert replies == Senders(p.state.deferred);
  }

  /** A deferred reply is a `RequestCS` call under a fresh timestamp, and that one is off the outbox. */
  lemma ReplyIsAStep(s: System, p: Participant, id: int, k: int, now: State, args: Request)
    requires now == p.state.(clock := p.state.clock + 1) && args == Request(id, now.clock) && k in p.outbox
    ensures var q := Moved(p, SendDeferred(id, k));
            && q.state == now && q.outbox + multiset{k} == p.outbox && q.answered == p.answered + multiset{k}
            && Emitted(s, p, SendDeferred(id, k)) == {Ask(args.nodeID, k, args.timestamp, true)}
  {
  }

  /** All other clock changes touch nothing but the clock. */
  lemma ClockIsAStep(p: Participant, id: int, received: int)
    ensures Moved(p, Tick(id)) == p.(state := p.state.(clock := p.state.clock + 1))
    ensures var q := Moved(p, Observe(id, received));
            && q == p.(state := p.state.(clock := q.state.clock))
            && q.state.clock > p.state.clock && q.state.clock > received
            && (q.state.clock - 1 == p.state.clock || q.state.clock - 1 == received)
  {
  }
}
