/** Locks, wait edges and remembered requests read off the history of operations alone. */
module DagHistory {
  import opened Collections
  import opened WaitForGraph
  import opened DagState

  /** The lock is granted: the resource is free or already held by the node. */
  predicate Grants(s: State, op: Op, node: int, resource: string) {
    op == Lock(node, resource) && (resource !in s.held || s.held[resource] == node)
  }

  /** The lock is refused because another node holds the resource. */
  predicate Refuses(s: State, op: Op, node: int, resource: string, holder: int) {
    op == Lock(node, resource) && resource in s.held && s.held[resource] == holder && holder != node
  }

  /** The node's lock on the resource ends. */
  predicate LosesLock(op: Op, node: int, resource: string) {
    op == Unlock(node, resource) || op == Resolve(node) || op == Reset
  }

  /** The resource that u asked for last is released by its holder. */
  predicate ReleasesAsked(s: State, op: Op, u: int) {
    && op.Unlock? && u in s.waitingResource && s.waitingResource[u] == op.resource
    && op.resource in s.held && s.held[op.resource] == op.node
  }

  predicate EndsWait(s: State, op: Op, u: int, v: int) {
    ReleasesAsked(s, op, u) || op == Resolve(u) || op == Resolve(v) || op == Reset
  }

  // ----- One operation -----

  lemma HeldStep(s: State, op: Op, node: int, resource: string)
    ensures var t := Apply(s, op);
            (resource in t.held && t.held[resource] == node) <==>
            (Grants(s, op, node, resource) ||
             (resource in s.held && s.held[resource] == node && !LosesLock(op, node, resource)))
  {
  }

  lemma EdgeStep(s: State, op: Op, u: int, v: int)
    ensures Edge(Apply(s, op).waitingFor, u, v) <==>
            ((exists r :: Refuses(s, op, u, r, v)) || (Edge(s.waitingFor, u, v) && !EndsWait(s, op, u, v)))
  {
    match op {
      case Lock(n, r) =>
        assert Refuses(s, op, u, r, v) <==> n == u && Blocks(s, n, r) && s.held[r] == v;
      case Unlock(n, r) =>
      case Resolve(a) => ResolveIsExact(s, a);
      case Reset =>
    }
  }

  lemma AskedStep(s: State, op: Op, u: int, resource: string)
    ensures var t := Apply(s, op);
            (u in t.waitingResource && t.waitingResource[u] == resource) <==>
            ((exists h :: Refuses(s, op, u, resource, h)) ||
             (&& u in s.waitingResource && s.waitingResource[u] == resource
              && !ReleasesAsked(s, op, u) && op != Resolve(u) && op != Reset
              && !(exists r, h :: Refuses(s, op, u, r, h))))
  {
    match op {
      case Lock(n, r) =>
        assert Blocks(s, n, r) ==> Refuses(s, op, n, r, s.held[r]);
      case Unlock(n, r) =>
      case Resolve(a) =>
      case Reset =>
    }
  }

  // ----- Whole histories -----

  /** The k-th operation granted the lock and nothing since has ended it. */
  ghost predicate GrantedAt(ops: seq<Op>, node: int, resource: string, k: nat) {
    && k < |ops| && Grants(Run(ops[..k]), ops[k], node, resource)
    && forall j :: k < j < |ops| ==> !LosesLock(ops[j], node, resource)
  }

  /** A node holds a resource exactly if it was granted it and has neither unlocked it nor been
      aborted since. */
  lemma {:induction false} HeldIff(ops: seq<Op>, node: int, resource: string)
    ensures (resource in Run(ops).held && Run(ops).held[resource] == node) <==>
            exists k :: 0 <= k < |ops| && GrantedAt(ops, node, resource, k)
  {
    if ops != [] {
      var n := |ops| - 1;
      HeldIff(ops[..n], node, resource);
      HeldStep(Run(ops[..n]), ops[n], node, resource);
      if Grants(Run(ops[..n]), ops[n], node, resource) {
        assert GrantedAt(ops, node, resource, n);
      }
      forall k | 0 <= k < n
        ensures GrantedAt(ops, node, resource, k) <==>
                GrantedAt(ops[..n], node, resource, k) && !LosesLock(ops[n], node, resource)
      {
        assert ops[..n][..k] == ops[..k];
      }
    }
  }

  /** The k-th operation refused u a resource held by v, and nothing since has ended the wait. */
  ghost predicate RefusedAt(ops: seq<Op>, u: int, v: int, k: nat) {
    && k < |ops| && (exists r :: Refuses(Run(ops[..k]), ops[k], u, r, v))
    && forall j {:trigger ops[j]} :: k < j < |ops| ==> !EndsWait(Run(ops[..j]), ops[j], u, v)
  }

  /** A wait edge is in the graph exactly if a refused request made it and since then neither
      the resource last asked for was released, nor one of the two nodes aborted, nor all reset. */
  lemma {:induction false} EdgeIff(ops: seq<Op>, u: int, v: int)
    ensures Edge(Run(ops).waitingFor, u, v) <==> exists k :: 0 <= k < |ops| && RefusedAt(ops, u, v, k)
  {
    if ops != [] {
      var n := |ops| - 1;
      EdgeIff(ops[..n], u, v);
      EdgeStep(Run(ops[..n]), ops[n], u, v);
      if exists r :: Refuses(Run(ops[..n]), ops[n], u, r, v) {
        assert RefusedAt(ops, u, v, n);
      }
      forall k | 0 <= k < n
        ensures RefusedAt(ops, u, v, k) <==> RefusedAt(ops[..n], u, v, k) && !EndsWait(Run(ops[..n]), ops[n], u, v)
      {
        RefusedEarlier(ops, u, v, k);
      }
    }
  }

  lemma RefusedEarlier(ops: seq<Op>, u: int, v: int, k: nat)
    requires k < |ops| - 1
    ensures var n := |ops| - 1;
            RefusedAt(ops, u, v, k) <==> RefusedAt(ops[..n], u, v, k) && !EndsWait(Run(ops[..n]), ops[n], u, v)
  {
    var n := |ops| - 1;
    forall j {:trigger ops[..n][j]} | 0 <= j < n ensures ops[..n][..j] == ops[..j] && ops[..n][j] == ops[j] {
    }
    assert ops[..n][k] == ops[k];
    if RefusedAt(ops[..n], u, v, k) && !EndsWait(Run(ops[..n]), ops[n], u, v) {
      forall j {:trigger ops[j]} | k < j < |ops| ensures !EndsWait(Run(ops[..j]), ops[j], u, v) {
        assert j < n ==> ops[..n][j] == ops[j];
      }
    }
  }

  /** Since the n-th operation u was refused nothing else, v has not released the resource,
      neither was aborted, and nothing was reset. */
  ghost predicate Undisturbed(ops: seq<Op>, n: nat, u: int, v: int, resource: string) {
    forall j {:trigger ops[j]} :: n <= j < |ops| ==>
      && ops[j] != Unlock(v, resource) && ops[j] != Resolve(u) && ops[j] != Resolve(v) && ops[j] != Reset
      && forall r, h :: Refuses(Run(ops[..j]), ops[j], u, r, h) ==> r == resource
  }

  /** So a refused request keeps its edge to the holder through all that follows, locks that are
      granted to either node included, until it is disturbed in one of these ways. */
  lemma {:induction false} RefusalStays(ops: seq<Op>, k: nat, u: int, v: int, resource: string)
    requires k < |ops| && Refuses(Run(ops[..k]), ops[k], u, resource, v) && Undisturbed(ops, k + 1, u, v, resource)
    ensures WaitsFor(Run(ops), u, v, resource)
  {
    var n := |ops| - 1;
    var s := Run(ops[..n]);
    if k < n {
      forall j {:trigger ops[..n][j]} | 0 <= j < n ensures ops[..n][..j] == ops[..j] && ops[..n][j] == ops[j] {
      }
      RefusalStays(ops[..n], k, u, v, resource);
      WaitStays(s, ops[n], u, v, resource);
    } else {
      WaitBegins(s, ops[n], u, v, resource);
    }
  }

  /** u waits for the resource, which v holds. */
  ghost predicate WaitsFor(s: State, u: int, v: int, resource: string) {
    && Edge(s.waitingFor, u, v)
    && u in s.waitingResource && s.waitingResource[u] == resource
    && resource in s.held && s.held[resource] == v
  }

  lemma WaitBegins(s: State, op: Op, u: int, v: int, resource: string)
    requires Refuses(s, op, u, resource, v)
    ensures WaitsFor(Apply(s, op), u, v, resource)
  {
    EdgeStep(s, op, u, v);
    AskedStep(s, op, u, resource);
    HeldStep(s, op, v, resource);
  }

  lemma WaitStays(s: State, op: Op, u: int, v: int, resource: string)
    requires WaitsFor(s, u, v, resource)
    requires op != Unlock(v, resource) && op != Resolve(u) && op != Resolve(v) && op != Reset
    requires forall r, h :: Refuses(s, op, u, r, h) ==> r == resource
    ensures WaitsFor(Apply(s, op), u, v, resource)
  {
    EdgeStep(s, op, u, v);
    AskedStep(s, op, u, resource);
    HeldStep(s, op, v, resource);
  }
}
