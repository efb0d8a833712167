/** The deadlock manager's state as a value, one function per operation, and what
    holds over every sequence of operations. */
module DagState {
  import opened Collections
  import opened WaitForGraph

  datatype State = State(
    held: map<string, int>,            // resource -> node holding it
    waitingFor: Graph,                 // node -> nodes it waits for
    waitingResource: map<int, string>  // node -> the resource it asked for last
  )

  const EMPTY := State(map[], map[], map[])

  datatype Op =
    | Lock(node: int, resource: string)
    | Unlock(node: int, resource: string)
    | Resolve(abort: int)
    | Reset

  /** Would this node be made to wait for this resource? */
  predicate Blocks(s: State, node: int, resource: string) {
    resource in s.held && s.held[resource] != node
  }

  function EdgesOf(g: Graph, node: int): seq<int> {
    if node in g then g[node] else []
  }

  function AfterLock(s: State, node: int, resource: string): State {
    if resource !in s.held then
      s.(held := s.held[resource := node])
    else if s.held[resource] == node then
      s
    else
      s.(waitingFor := s.waitingFor[node := EdgesOf(s.waitingFor, node) + [s.held[resource]]],
         waitingResource := s.waitingResource[node := resource])
  }

  function WaitersOn(s: State, resource: string): set<int> {
    set n | n in s.waitingResource && s.waitingResource[n] == resource
  }

  function AfterUnlock(s: State, node: int, resource: string): State {
    if resource !in s.held || s.held[resource] != node then
      s
    else
      State(s.held - {resource},
            s.waitingFor - WaitersOn(s, resource),
            s.waitingResource - WaitersOn(s, resource))
  }

  function GraphWithout(g: Graph, x: int): Graph {
    map n | n in g && n != x && Without(g[n], x) != [] :: Without(g[n], x)
  }

  function AfterResolve(s: State, abort: int): State {
    State(map r | r in s.held && s.held[r] != abort :: s.held[r],
          GraphWithout(s.waitingFor, abort),
          s.waitingResource - {abort})
  }

  function Apply(s: State, op: Op): State {
    match op
    case Lock(n, r) => AfterLock(s, n, r)
    case Unlock(n, r) => AfterUnlock(s, n, r)
    case Resolve(a) => AfterResolve(s, a)
    case Reset => EMPTY
  }

  function Run(ops: seq<Op>): State {
    if ops == [] then EMPTY else Apply(Run(ops[..|ops| - 1]), ops[|ops| - 1])
  }

  lemma RunAppend(ops: seq<Op>, op: Op)
    ensures Run(ops + [op]) == Apply(Run(ops), op)
  {
    assert (ops + [op])[..|ops|] == ops;
  }

  // ----- What holds with no client discipline at all -----

  ghost predicate WellFormed(s: State) {
    && s.waitingFor.Keys <= s.waitingResource.Keys
    && (forall n :: n in s.waitingFor ==> s.waitingFor[n] != [] && n !in s.waitingFor[n])
  }

  lemma {:induction false} AlwaysWellFormed(ops: seq<Op>)
    ensures WellFormed(Run(ops))
  {
    if ops != [] {
      AlwaysWellFormed(ops[..|ops| - 1]);
      var s, op := Run(ops[..|ops| - 1]), ops[|ops| - 1];
      match op {
        case Lock(n, r) =>
        case Unlock(n, r) =>
        case Resolve(a) =>
        case Reset =>
      }
    }
  }

  /** An abort removes exactly the edges at the aborted node and exactly the
      resources it held; nothing else about the graph or the locks changes. */
  lemma ResolveIsExact(s: State, abort: int)
    ensures var t := AfterResolve(s, abort);
            && (forall u, v :: Edge(t.waitingFor, u, v) <==> Edge(s.waitingFor, u, v) && u != abort && v != abort)
            && (forall r :: r in t.held <==> r in s.held && s.held[r] != abort)
            && (forall r :: r in t.held ==> t.held[r] == s.held[r])
            && abort !in Nodes(t.waitingFor)
  {
    var t := AfterResolve(s, abort);
    forall u, v ensures Edge(t.waitingFor, u, v) <==> Edge(s.waitingFor, u, v) && u != abort && v != abort {
      if Edge(s.waitingFor, u, v) && u != abort && v != abort {
        assert v in Without(s.waitingFor[u], abort);
      }
    }
    forall u, v | Edge(t.waitingFor, u, v) ensures v != abort {
    }
  }

  // ----- Exactness: the graph says precisely who waits for whom -----

  /** Every edge leads to the present holder of the resource its source waits for. */
  ghost predicate Exact(s: State) {
    && WellFormed(s)
    && forall n :: n in s.waitingFor ==>
         && s.waitingResource[n] in s.held
         && forall v :: v in s.waitingFor[n] ==> v == s.held[s.waitingResource[n]]
  }

  /** A request keeps the graph exact when it does not send a node that is already
      waiting to a second holder. */
  predicate Disciplined(s: State, op: Op)
    requires s.waitingFor.Keys <= s.waitingResource.Keys
  {
    op.Lock? && Blocks(s, op.node, op.resource) && op.node in s.waitingFor ==>
      var r := s.waitingResource[op.node];
      r in s.held && s.held[r] == s.held[op.resource]
  }

  lemma ExactStep(s: State, op: Op)
    requires Exact(s)
    ensures Exact(Apply(s, op)) <==> Disciplined(s, op)
  {
    match op {
      case Lock(n, r) =>
        var t := AfterLock(s, n, r);
        if Blocks(s, n, r) && n in s.waitingFor {
          var edges := s.waitingFor[n];
          assert t.waitingFor[n] == edges + [s.held[r]];
          assert edges[0] in edges && edges[0] in t.waitingFor[n];
          assert edges[0] == s.held[s.waitingResource[n]];
          if s.held[s.waitingResource[n]] == s.held[r] {
            assert Exact(t);
          } else {
            assert !Exact(t);
          }
        } else if r !in s.held {
          forall m | m in t.waitingFor ensures s.waitingResource[m] != r {
          }
        }
      case Unlock(n, r) =>
      case Resolve(a) =>
        var t := AfterResolve(s, a);
        forall m | m in t.waitingFor
          ensures s.waitingResource[m] in t.held
        {
          var e := t.waitingFor[m];
          assert e[0] in e && e[0] in s.waitingFor[m] && e[0] != a;
        }
      case Reset =>
    }
  }

  ghost predicate AlwaysExact(ops: seq<Op>) {
    forall k {:trigger Run(ops[..k])} :: 0 <= k <= |ops| ==> Exact(Run(ops[..k]))
  }

  ghost predicate AlwaysDisciplined(ops: seq<Op>) {
    forall k {:trigger Run(ops[..k])} :: 0 <= k < |ops| ==>
      var s := Run(ops[..k]);
      s.waitingFor.Keys <= s.waitingResource.Keys && Disciplined(s, ops[k])
  }

  /** Over a whole run the graph is exact in every state if and only if every request
      along the way keeps to the discipline. */
  lemma {:induction false} ExactIffDisciplined(ops: seq<Op>)
    ensures AlwaysExact(ops) <==> AlwaysDisciplined(ops)
  {
    forall k | 0 <= k <= |ops| ensures WellFormed(Run(ops[..k])) {
      AlwaysWellFormed(ops[..k]);
    }
    if AlwaysExact(ops) {
      forall k | 0 <= k < |ops| ensures Disciplined(Run(ops[..k]), ops[k]) {
        assert ops[..k + 1][..k] == ops[..k];
        assert Run(ops[..k + 1]) == Apply(Run(ops[..k]), ops[k]);
        ExactStep(Run(ops[..k]), ops[k]);
      }
    }
    if AlwaysDisciplined(ops) {
      forall k | 0 <= k <= |ops| ensures Exact(Run(ops[..k])) {
        DisciplinedPrefixExact(ops, k);
      }
    }
  }

  lemma {:induction false} DisciplinedPrefixExact(ops: seq<Op>, k: nat)
    requires AlwaysDisciplined(ops) && k <= |ops|
    ensures Exact(Run(ops[..k]))
  {
    if k > 0 {
      DisciplinedPrefixExact(ops, k - 1);
      assert ops[..k][..k - 1] == ops[..k - 1];
      ExactStep(Run(ops[..k - 1]), ops[k - 1]);
    }
  }

  /** Node 3 waits for `a` (held by 1) and then also asks for `b` (held by 2). */
  function SecondWait(a: string, b: string, c: string): seq<Op> {
    [Lock(1, a), Lock(2, b), Lock(3, c), Lock(3, a), Lock(3, b), Unlock(1, a), Lock(1, c)]
  }

  lemma RunStep(ops: seq<Op>, k: nat)
    requires k < |ops|
    ensures Run(ops[..k + 1]) == Apply(Run(ops[..k]), ops[k])
  {
    assert ops[..k + 1][..k] == ops[..k];
  }

  lemma SecondWaitFirstHalf(a: string, b: string, c: string)
    requires a != b && b != c && a != c
    ensures Run(SecondWait(a, b, c)[..4]) == State(map[a := 1, b := 2, c := 3], map[3 := [1]], map[3 := a])
  {
    var ops := SecondWait(a, b, c);
    assert ops[..0] == [];
    RunStep(ops, 0);
    RunStep(ops, 1);
    RunStep(ops, 2);
    RunStep(ops, 3);
    assert [] + [1] == [1];
  }

  lemma SecondWaitSecondHalf(a: string, b: string, c: string)
    requires a != b && b != c && a != c
    ensures Run(SecondWait(a, b, c)[..6]) == State(map[b := 2, c := 3], map[3 := [1, 2]], map[3 := b])
  {
    SecondWaitFirstHalf(a, b, c);
    RunStep(SecondWait(a, b, c), 4);
    AskTwice(a, b, c);
    RunStep(SecondWait(a, b, c), 5);
    FreeUnwanted(a, b, c);
  }

  lemma AskTwice(a: string, b: string, c: string)
    requires a != b && b != c && a != c
    ensures AfterLock(State(map[a := 1, b := 2, c := 3], map[3 := [1]], map[3 := a]), 3, b) ==
            State(map[a := 1, b := 2, c := 3], map[3 := [1, 2]], map[3 := b])
  {
    assert [1] + [2] == [1, 2];
  }

  lemma FreeUnwanted(a: string, b: string, c: string)
    requires a != b && b != c && a != c
    ensures AfterUnlock(State(map[a := 1, b := 2, c := 3], map[3 := [1, 2]], map[3 := b]), 1, a) ==
            State(map[b := 2, c := 3], map[3 := [1, 2]], map[3 := b])
  {
    var s := State(map[a := 1, b := 2, c := 3], map[3 := [1, 2]], map[3 := b]);
    assert WaitersOn(s, a) == {};
  }

  lemma SecondWaitEnd(a: string, b: string, c: string)
    requires a != b && b != c && a != c
    ensures Run(SecondWait(a, b, c)) == State(map[b := 2, c := 3], map[3 := [1, 2], 1 := [3]], map[3 := b, 1 := c])
  {
    SecondWaitSecondHalf(a, b, c);
    RunStep(SecondWait(a, b, c), 6);
    assert [] + [3] == [3] && SecondWait(a, b, c)[..7] == SecondWait(a, b, c);
  }

  lemma MemberBlocked(s: State, group: set<int>, n: int)
    requires Deadlocked(s, group) && n in group
    ensures BlockedWithin(s, group, n)
  {
  }

  /** The discipline is needed: the second request leaves an edge 3 -> 1 behind when 1 lets
      `a` go, and 1 waiting for 3 is then reported as a deadlock although 3 waits only for 2. */
  lemma SecondWaitMakesFalseDeadlock(a: string, b: string, c: string)
    requires a != b && b != c && a != c
    ensures HasCycle(Run(SecondWait(a, b, c)).waitingFor)
    ensures forall group :: !Deadlocked(Run(SecondWait(a, b, c)), group)
    ensures !AlwaysDisciplined(SecondWait(a, b, c))
  {
    SecondWaitFirstHalf(a, b, c);
    assert !Disciplined(Run(SecondWait(a, b, c)[..4]), SecondWait(a, b, c)[4]);
    SecondWaitEnd(a, b, c);
    FalseDeadlock(b, c);
  }

  lemma FalseDeadlock(b: string, c: string)
    requires b != c
    ensures var s := State(map[b := 2, c := 3], map[3 := [1, 2], 1 := [3]], map[3 := b, 1 := c]);
            HasCycle(s.waitingFor) && forall group :: !Deadlocked(s, group)
  {
    var s := State(map[b := 2, c := 3], map[3 := [1, 2], 1 := [3]], map[3 := b, 1 := c]);
    assert Edge(s.waitingFor, 1, 3) && Edge(s.waitingFor, 3, 1);
    assert IsCycle(s.waitingFor, [1, 3, 1]);
    forall group ensures !Deadlocked(s, group) {
      if Deadlocked(s, group) {
        assert 2 in group ==> BlockedWithin(s, group, 2);
        assert 3 in group ==> BlockedWithin(s, group, 3);
        MemberBlocked(s, group, Pick(group));
      }
    }
  }

  // ----- Deadlock in terms of locks -----

  predicate BlockedWithin(s: State, group: set<int>, n: int) {
    && n in s.waitingFor
    && n in s.waitingResource
    && s.waitingResource[n] in s.held
    && s.held[s.waitingResource[n]] in group
  }

  /** A nonempty group, each member blocked on a resource that a member holds. */
  ghost predicate Deadlocked(s: State, group: set<int>) {
    group != {} && forall n {:trigger BlockedWithin(s, group, n)} :: n in group ==> BlockedWithin(s, group, n)
  }

  lemma StuckIffDeadlocked(s: State, group: set<int>)
    requires Exact(s)
    ensures Stuck(s.waitingFor, group) <==> Deadlocked(s, group)
  {
    if Stuck(s.waitingFor, group) {
      forall n | n in group ensures BlockedWithin(s, group, n) {
        assert WaitsWithin(s.waitingFor, group, n);
      }
    }
    if Deadlocked(s, group) {
      forall n | n in group ensures WaitsWithin(s.waitingFor, group, n) {
        assert BlockedWithin(s, group, n);
        var v := s.waitingFor[n][0];
        assert v in s.waitingFor[n] && Edge(s.waitingFor, n, v);
      }
    }
  }

  lemma ExactCycleIffDeadlock(s: State)
    requires Exact(s)
    ensures HasCycle(s.waitingFor) <==> exists group :: Deadlocked(s, group)
  {
    CycleIffStuck(s.waitingFor);
    forall group ensures Stuck(s.waitingFor, group) <==> Deadlocked(s, group) {
      StuckIffDeadlocked(s, group);
    }
  }

  /** In every state of a disciplined run: the graph has a cycle exactly when some group
      is deadlocked, and otherwise every blocked node's chain of holders ends at a
      node that is not blocked. */
  lemma CycleIffDeadlock(ops: seq<Op>)
    requires AlwaysDisciplined(ops)
    ensures HasCycle(Run(ops).waitingFor) <==> exists group :: Deadlocked(Run(ops), group)
    ensures !HasCycle(Run(ops).waitingFor) ==>
              forall n :: n in Run(ops).waitingFor ==> exists chain :: ChainToRunner(Run(ops), n, chain)
  {
    var s := Run(ops);
    assert ops[..|ops|] == ops;
    DisciplinedPrefixExact(ops, |ops|);
    ExactCycleIffDeadlock(s);
    if !HasCycle(s.waitingFor) {
      forall n | n in s.waitingFor ensures exists chain :: ChainToRunner(s, n, chain) {
        var chain := ChainEnds(s.waitingFor, [n]);
        assert ChainToRunner(s, n, chain);
      }
    }
  }

  /** Each node of the chain holds what the node before it is blocked on; the last is free to run. */
  ghost predicate ChainToRunner(s: State, n: int, chain: seq<int>) {
    && chain != [] && chain[0] == n && chain[|chain| - 1] !in s.waitingFor
    && forall i, j :: 0 <= i < j < |chain| && j == i + 1 ==> HolderBlocking(s, chain[i], chain[j])
  }

  predicate HolderBlocking(s: State, u: int, v: int) {
    && u in s.waitingFor && u in s.waitingResource
    && s.waitingResource[u] in s.held && s.held[s.waitingResource[u]] == v
  }

  // ----- Detecting and aborting until no cycle is left -----

  /** Each round aborts a node that lies on a cycle of the graph of that round. */
  ghost predicate IsAbortRun(states: seq<State>, aborted: seq<int>) {
    && |states| == |aborted| + 1
    && forall k {:trigger aborted[k]} :: 0 <= k < |aborted| ==> IsAbortRound(states[k], aborted[k], states[k + 1])
  }

  ghost predicate IsAbortRound(s: State, a: int, t: State) {
    t == AfterResolve(s, a) && exists w :: IsCycle(s.waitingFor, w) && a in w
  }

  lemma AbortRoundShrinks(s: State, a: int, t: State)
    requires IsAbortRound(s, a, t)
    ensures t.waitingFor.Keys <= s.waitingFor.Keys - {a}
    ensures |t.waitingFor| < |s.waitingFor|
  {
    var w :| IsCycle(s.waitingFor, w) && a in w;
    var k :| 0 <= k < |w| && w[k] == a;
    assert Edge(s.waitingFor, a, if k + 1 < |w| then w[k + 1] else w[1]);
    SubsetSize(t.waitingFor.Keys, s.waitingFor.Keys - {a});
  }

  lemma ExtendAbortRun(states: seq<State>, aborted: seq<int>, a: int, t: State)
    requires IsAbortRun(states, aborted) && IsAbortRound(states[|aborted|], a, t)
    ensures IsAbortRun(states + [t], aborted + [a])
  {
    var states', aborted' := states + [t], aborted + [a];
    forall k {:trigger aborted'[k]} | 0 <= k < |aborted'|
      ensures IsAbortRound(states'[k], aborted'[k], states'[k + 1])
    {
      if k < |aborted| {
        assert IsAbortRound(states[k], aborted[k], states[k + 1]);
      }
    }
  }

  /** Every round removes at least the aborted node from the waiting nodes, so there are
      never more rounds than waiting nodes at the start, whichever nodes are chosen. */
  lemma {:induction false} AbortRunsAreShort(states: seq<State>, aborted: seq<int>)
    requires IsAbortRun(states, aborted)
    ensures |aborted| + |states[|aborted|].waitingFor| <= |states[0].waitingFor|
    ensures states[|aborted|].waitingFor.Keys !! Elements(aborted)
    ensures states[|aborted|].waitingFor.Keys <= states[0].waitingFor.Keys
  {
    var n := |aborted|;
    if n > 0 {
      AbortRunsAreShort(states[..n], aborted[..n - 1]);
      var s, a, t := states[n - 1], aborted[n - 1], states[n];
      assert IsAbortRound(s, a, t);
      AbortRoundShrinks(s, a, t);
      assert aborted == aborted[..n - 1] + [a];
      assert Elements(aborted) == Elements(aborted[..n - 1]) + {a};
    }
  }

  /** A cycle always offers a node to abort: the rounds stop only on an acyclic graph. */
  lemma AbortRunCanContinue(states: seq<State>, aborted: seq<int>) returns (a: int)
    requires IsAbortRun(states, aborted) && HasCycle(states[|aborted|].waitingFor)
    ensures a in states[|aborted|].waitingFor
    ensures IsAbortRun(states + [AfterResolve(states[|aborted|], a)], aborted + [a])
  {
    var s := states[|aborted|];
    var w :| IsCycle(s.waitingFor, w);
    a := w[0];
    assert Edge(s.waitingFor, a, w[1]);
    assert a in w;
    ExtendAbortRun(states, aborted, a, AfterResolve(s, a));
  }
}
