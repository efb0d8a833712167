/** The part of a node that mutual exclusion reads and writes: Lamport clock, own request
    and deferred queue, with the atomic sections of requester and responder as functions. */
module RequestState {
  /** A request as it appears in messages and in the deferred queue. */
  datatype Request = Request(nodeID: int, timestamp: int)

  datatype State = State(
    clock: int,
    requesting: bool,
    requestTime: int,
    deferred: seq<Request>
  )

  const INITIAL := State(0, false, 0, [])

  function Ticked(clock: int): int {
    clock + 1
  }

  /** The least time after both. */
  function Merged(clock: int, received: int): (r: int)
    ensures r > clock && r > received && (r - 1 == clock || r - 1 == received)
  {
    (if received > clock then received else clock) + 1
  }

  /** The strict order on requests: by timestamp, ties by node ID. */
  predicate Before(a: Request, b: Request) {
    a.timestamp < b.timestamp || (a.timestamp == b.timestamp && a.nodeID < b.nodeID)
  }

  function OwnRequest(s: State, id: int): Request {
    Request(id, s.requestTime)
  }

  /** Requester: raise the flag and take the timestamp, in one locked section. */
  function Began(s: State): State {
    s.(requesting := true, clock := Ticked(s.clock), requestTime := Ticked(s.clock))
  }

  /** Responder, first step: merge the clocks, before the lock is taken. */
  function Observed(s: State, timestamp: int): State {
    s.(clock := Merged(s.clock, timestamp))
  }

  /** Responder, under the lock: defer exactly the requests that come after one's own. */
  predicate ShouldDefer(s: State, id: int, args: Request)
    ensures ShouldDefer(s, id, args) <==> s.requesting && Before(OwnRequest(s, id), args)
  {
    s.requesting && (
      if args.timestamp > s.requestTime then true
      else if args.timestamp == s.requestTime then args.nodeID > id
      else false)
  }

  function Decided(s: State, id: int, args: Request): State {
    if ShouldDefer(s, id, args) then s.(deferred := s.deferred + [args]) else s
  }

  /** Requester: drop the flag and empty the queue, in one locked section. */
  function Released(s: State): State {
    s.(requesting := false, deferred := [])
  }

  /** The nodes named in a queue, entry by entry. */
  function Senders(queue: seq<Request>): (r: seq<int>)
    ensures |r| == |queue| && forall i :: 0 <= i < |queue| ==> r[i] == queue[i].nodeID
  {
    seq(|queue|, i requires 0 <= i < |queue| => queue[i].nodeID)
  }

  /** A queue is held only during an own request, which every entry comes after. */
  ghost predicate QueueInvariant(s: State, id: int) {
    && (s.deferred != [] ==> s.requesting)
    && (forall e :: e in s.deferred ==> Before(OwnRequest(s, id), e))
  }

  lemma QueueInvariantKept(s: State, id: int, args: Request)
    requires QueueInvariant(s, id)
    ensures !s.requesting ==> QueueInvariant(Began(s), id)
    ensures QueueInvariant(Observed(s, args.timestamp), id)
    ensures QueueInvariant(Decided(s, id, args), id)
    ensures QueueInvariant(Released(s), id)
  {
    var t := Decided(s, id, args);
    assert forall e :: e in t.deferred ==> e in s.deferred || e == args;
  }
}
