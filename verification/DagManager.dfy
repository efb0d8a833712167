/** The deadlock manager: three maps updated in place, and the depth-first search. */
module DagManager {
  import opened Collections
  import opened WaitForGraph
  import opened DagState

  predicate Marked(m: map<int, bool>, node: int) {
    node in m && m[node]
  }

  function MarkedNodes(m: map<int, bool>): set<int> {
    set n | n in m && m[n]
  }

  /** The two maps one cycle search shares between all its recursive calls. */
  class Search {
    var visited: map<int, bool>
    var recStack: map<int, bool>
    ghost var finished: seq<int>  // the nodes whose call returned without a cycle, in that order

    constructor ()
      ensures visited == map[] && recStack == map[] && finished == []
    {
      visited, recStack, finished := map[], map[], [];
    }

    ghost function Visited(): set<int>
      reads this
    {
      MarkedNodes(visited)
    }

    /** Between calls: recStack holds exactly the current path, every visited node is on the
        path or finished, and all successors of a finished node finished before it. */
    ghost predicate Consistent(g: Graph, path: seq<int>)
      reads this
    {
      && MarkedNodes(recStack) == Elements(path)
      && Visited() == Elements(path) + Elements(finished)
      && Elements(path) !! Elements(finished)
      && Distinct(path)
      && Topological(g, finished)
    }

    /** Start on a node: mark it visited and put it on the stack. */
    method Enter(node: int, ghost g: Graph, ghost path: seq<int>)
      requires Consistent(g, path) && node !in Visited()
      modifies this`visited, this`recStack
      ensures Consistent(g, path + [node])
      ensures Visited() == old(Visited()) + {node}
    {
      visited := visited[node := true];
      recStack := recStack[node := true];
      assert MarkedNodes(visited) == MarkedNodes(old(visited)) + {node};
      assert MarkedNodes(recStack) == MarkedNodes(old(recStack)) + {node};
      assert Elements(path + [node]) == Elements(path) + {node};
      assert node !in Elements(path) && Distinct(path + [node]);
    }

    /** All successors have finished: take the node off the stack. */
    method Finish(node: int, ghost g: Graph, ghost path: seq<int>)
      requires Consistent(g, path + [node]) && Elements(EdgesOf(g, node)) <= Elements(finished)
      modifies this`recStack, this`finished
      ensures Consistent(g, path) && finished == old(finished) + [node]
    {
      recStack := recStack[node := false];
      FinishNode(g, finished, node);
      finished := finished + [node];
      assert Elements(path + [node]) == Elements(path) + {node};
      assert (path + [node])[|path|] == node && node !in path by {
        assert forall i :: 0 <= i < |path| ==> (path + [node])[i] == path[i];
      }
      assert MarkedNodes(recStack) == MarkedNodes(old(recStack)) - {node};
      assert Elements(finished) == Elements(old(finished)) + {node};
      assert Distinct(path) by {
        assert forall i :: 0 <= i < |path| ==> (path + [node])[i] == path[i];
      }
    }
  }

  class DagManager {
    var heldResources: map<string, int>
    var waitingFor: Graph
    var waitingResource: map<int, string>
    ghost var history: seq<Op>  // the operations so far

    ghost predicate Valid()
      reads this
    {
      State() == Run(history)
    }

    function State(): State
      reads this
    {
      DagState.State(heldResources, waitingFor, waitingResource)
    }

    constructor ()
      ensures Valid() && history == [] && State() == EMPTY
    {
      heldResources, waitingFor, waitingResource := map[], map[], map[];
      history := [];
    }

    method Lock(nodeID: int, resource: string) returns (granted: bool, waitFor: int)
      requires Valid()
      modifies this
      ensures Valid() && history == old(history) + [DagState.Lock(nodeID, resource)]
      ensures State() == AfterLock(old(State()), nodeID, resource)
      ensures granted <==> resource !in old(heldResources) || old(heldResources)[resource] == nodeID
      ensures granted ==> waitFor == 0 && heldResources == old(heldResources)[resource := nodeID]
      ensures granted ==> waitingFor == old(waitingFor) && waitingResource == old(waitingResource)
      ensures !granted ==> waitFor == old(heldResources)[resource] && heldResources == old(heldResources)
      ensures !granted ==> waitingResource == old(waitingResource)[nodeID := resource]
      ensures !granted ==> waitingFor.Keys == old(waitingFor.Keys) + {nodeID}
      ensures !granted ==> forall u :: u in waitingFor ==>
                waitingFor[u] == (if u in old(waitingFor) then old(waitingFor)[u] else []) +
                                 (if u == nodeID then [waitFor] else [])
    {
      history := history + [DagState.Lock(nodeID, resource)];
      RunAppend(old(history), DagState.Lock(nodeID, resource));
      if resource !in heldResources {
        heldResources := heldResources[resource := nodeID];
        return true, 0;
      }
      var holder := heldResources[resource];
      if holder == nodeID {
        return true, 0;
      }
      waitingFor := waitingFor[nodeID := EdgesOf(waitingFor, nodeID) + [holder]];
      waitingResource := waitingResource[nodeID := resource];
      return false, holder;
    }

    method Unlock(nodeID: int, resource: string)
      requires Valid()
      modifies this
      ensures Valid() && history == old(history) + [DagState.Unlock(nodeID, resource)]
      ensures State() == AfterUnlock(old(State()), nodeID, resource)
      ensures resource !in old(heldResources) || old(heldResources)[resource] != nodeID ==> State() == old(State())
      ensures resource in old(heldResources) && old(heldResources)[resource] == nodeID ==>
                && heldResources == old(heldResources) - {resource}
                && (forall u :: u in waitingFor <==>
                      u in old(waitingFor) && !(u in old(waitingResource) && old(waitingResource)[u] == resource))
                && (forall u :: u in waitingFor ==> waitingFor[u] == old(waitingFor)[u])
                && (forall u :: u in waitingResource <==>
                      u in old(waitingResource) && old(waitingResource)[u] != resource)
                && (forall u :: u in waitingResource ==> waitingResource[u] == old(waitingResource)[u])
    {
      history := history + [DagState.Unlock(nodeID, resource)];
      RunAppend(old(history), DagState.Unlock(nodeID, resource));
      if resource !in heldResources || heldResources[resource] != nodeID {
        return;
      }
      heldResources := heldResources - {resource};
      ClearWaiters(resource);
    }

    /** The loop of Unlock: nobody waits for the freed resource any more. */
    method ClearWaiters(resource: string)
      modifies this`waitingFor, this`waitingResource
      ensures waitingResource == old(waitingResource) - WaitersOn(old(State()), resource)
      ensures waitingFor == old(waitingFor) - WaitersOn(old(State()), resource)
    {
      ghost var waiters := WaitersOn(State(), resource);
      var todo := waitingResource.Keys;
      while todo != {}
        invariant todo <= waitingResource.Keys
        invariant waitingResource == old(waitingResource) - (waiters - todo)
        invariant waitingFor == old(waitingFor) - (waiters - todo)
        decreases todo
      {
        var waitingNode := AnyOf(todo);
        todo := todo - {waitingNode};
        if waitingResource[waitingNode] == resource {
          waitingResource := waitingResource - {waitingNode};
          waitingFor := waitingFor - {waitingNode};
        }
      }
    }

    method Resolve(abortNodeID: int)
      requires Valid()
      modifies this
      ensures Valid() && history == old(history) + [DagState.Resolve(abortNodeID)]
      ensures State() == AfterResolve(old(State()), abortNodeID)
      ensures forall r :: r in heldResources <==> r in old(heldResources) && old(heldResources)[r] != abortNodeID
      ensures forall r :: r in heldResources ==> heldResources[r] == old(heldResources)[r]
      ensures waitingResource == old(waitingResource) - {abortNodeID}
      ensures forall u, v :: Edge(waitingFor, u, v) <==>
                             Edge(old(waitingFor), u, v) && u != abortNodeID && v != abortNodeID
    {
      history := history + [DagState.Resolve(abortNodeID)];
      RunAppend(old(history), DagState.Resolve(abortNodeID));
      ReleaseAll(abortNodeID);
      waitingFor := waitingFor - {abortNodeID};
      waitingResource := waitingResource - {abortNodeID};
      DropEdgesTo(abortNodeID);
      ResolveIsExact(old(State()), abortNodeID);
      assert GraphWithout(old(waitingFor) - {abortNodeID}, abortNodeID) == GraphWithout(old(waitingFor), abortNodeID);
    }

    /** The second loop of Resolve: nobody waits for the aborted node any more. */
    method DropEdgesTo(abortNodeID: int)
      requires abortNodeID !in waitingFor
      modifies this`waitingFor
      ensures waitingFor == GraphWithout(old(waitingFor), abortNodeID)
    {
      ghost var g := waitingFor;
      var todo := waitingFor.Keys;
      while todo != {}
        invariant todo <= waitingFor.Keys
        invariant forall n :: n in waitingFor <==> n in g && (n in todo || Without(g[n], abortNodeID) != [])
        invariant forall n :: n in waitingFor ==>
          waitingFor[n] == if n in todo then g[n] else Without(g[n], abortNodeID)
        decreases todo
      {
        var node := AnyOf(todo);
        todo := todo - {node};
        var newWaitList := RemoveFrom(waitingFor[node], abortNodeID);
        if |newWaitList| == 0 {
          waitingFor := waitingFor - {node};
        } else {
          waitingFor := waitingFor[node := newWaitList];
        }
      }
      forall n ensures n in waitingFor <==> n in GraphWithout(g, abortNodeID) {
      }
    }

    /** The first loop of Resolve: free everything the aborted node holds. */
    method ReleaseAll(abortNodeID: int)
      modifies this`heldResources
      ensures heldResources == AfterResolve(old(State()), abortNodeID).held
    {
      ghost var held := heldResources;
      var todo := heldResources.Keys;
      while todo != {}
        invariant todo <= heldResources.Keys
        invariant forall r :: r in heldResources <==> r in held && (r in todo || held[r] != abortNodeID)
        invariant forall r :: r in heldResources ==> heldResources[r] == held[r]
        decreases todo
      {
        var resource := AnyOf(todo);
        todo := todo - {resource};
        if heldResources[resource] == abortNodeID {
          heldResources := heldResources - {resource};
        }
      }
    }

    /** The inner loop of Resolve: copy a wait list without the aborted node. */
    static method RemoveFrom(waitList: seq<int>, x: int) returns (newWaitList: seq<int>)
      ensures newWaitList == Without(waitList, x)
    {
      newWaitList := [];
      for i := 0 to |waitList|
        invariant newWaitList == Without(waitList[..i], x)
      {
        assert waitList[..i + 1][..i] == waitList[..i];
        if waitList[i] != x {
          newWaitList := newWaitList + [waitList[i]];
        }
      }
      assert waitList[..|waitList|] == waitList;
    }

    method Reset()
      requires Valid()
      modifies this
      ensures Valid() && history == old(history) + [DagState.Reset]
      ensures heldResources == map[] && waitingFor == map[] && waitingResource == map[]
    {
      history := history + [DagState.Reset];
      RunAppend(old(history), DagState.Reset);
      heldResources, waitingFor, waitingResource := map[], map[], map[];
    }

    /** Says whether the wait-for graph has a cycle, and if so shows one, whatever the graph
        and the order in which the map hands out its keys. */
    method DetectCycle() returns (found: bool, cycle: seq<int>)
      ensures found <==> HasCycle(waitingFor)
      ensures found ==> IsLasso(waitingFor, cycle) && cycle[0] in waitingFor
      ensures !found ==> cycle == []
      ensures Valid() && AlwaysDisciplined(history) ==> (found <==> exists group :: Deadlocked(State(), group))
    {
      if Valid() && AlwaysDisciplined(history) {
        CycleIffDeadlock(history);
      }
      var search := new Search();
      var todo := waitingFor.Keys;
      while todo != {}
        invariant search.Consistent(waitingFor, [])
        invariant waitingFor.Keys - todo <= search.Visited()
        decreases todo
      {
        var node := AnyOf(todo);
        todo := todo - {node};
        if !Marked(search.visited, node) {
          cycle := Dfs(node, search, []);
          if |cycle| > 0 {
            var p := LassoEndsInCycle(waitingFor, cycle);
            assert State() == old(State());
            return true, cycle;
          }
        }
      }
      TopologicalMeansAcyclic(waitingFor, search.finished);
      return false, [];
    }

    /** Detect, abort some node of the cycle found, and detect again, until no cycle is left:
        there are no more rounds than waiting nodes at the start, whichever nodes are chosen. */
    method BreakCycles() returns (aborted: seq<int>, ghost states: seq<State>)
      requires Valid()
      modifies this
      ensures Valid() && !HasCycle(waitingFor)
      ensures IsAbortRun(states, aborted) && states[0] == old(State()) && states[|aborted|] == State()
      ensures |aborted| + |waitingFor| <= |old(waitingFor)|
      ensures waitingFor.Keys <= old(waitingFor.Keys) - Elements(aborted)
      ensures AlwaysDisciplined(history) ==> !exists group :: Deadlocked(State(), group)
    {
      aborted, states := [], [State()];
      var found, cycle := DetectCycle();
      while found
        invariant Valid() && (found <==> HasCycle(waitingFor)) && (found ==> IsLasso(waitingFor, cycle))
        invariant IsAbortRun(states, aborted) && states[0] == old(State()) && states[|aborted|] == State()
        invariant !found && AlwaysDisciplined(history) ==> !exists group :: Deadlocked(State(), group)
        decreases |waitingFor|
      {
        var victim := OnCycle(cycle);
        Resolve(victim);
        assert IsAbortRound(states[|aborted|], victim, State());
        AbortRoundShrinks(states[|aborted|], victim, State());
        ExtendAbortRun(states, aborted, victim, State());
        aborted, states := aborted + [victim], states + [State()];
        found, cycle := DetectCycle();
      }
      AbortRunsAreShort(states, aborted);
    }

    /** Some node on the cycle that a reported walk ends in. */
    method OnCycle(w: seq<int>) returns (victim: int)
      requires IsLasso(waitingFor, w)
      ensures exists c :: IsCycle(waitingFor, c) && victim in c
    {
      var last := w[|w| - 1];
      assert last in w[..|w| - 1];
      var p := Rank(w, last);
      assert p < |w| - 1;
      assert w[p..][0] in Elements(w[p..]);
      victim := AnyOf(Elements(w[p..]));
      assert IsCycle(waitingFor, w[p..]);
    }

    method Dfs(node: int, search: Search, path: seq<int>) returns (cycle: seq<int>)
      requires search.Consistent(waitingFor, path)
      requires node !in search.Visited() && node in Nodes(waitingFor)
      requires IsWalk(waitingFor, path + [node])
      modifies search
      ensures old(search.Visited()) < search.Visited()
      ensures cycle == [] ==> search.Consistent(waitingFor, path)
      ensures cycle == [] ==> node in search.finished && old(search.finished) <= search.finished
      ensures cycle != [] ==> IsLasso(waitingFor, cycle) && path + [node] <= cycle
      decreases Nodes(waitingFor) - search.Visited()
    {
      search.Enter(node, waitingFor, path);
      var here := path + [node];
      var neighbors := EdgesOf(waitingFor, node);
      for i := 0 to |neighbors|
        invariant search.Consistent(waitingFor, here)
        invariant old(search.Visited()) + {node} <= search.Visited()
        invariant old(search.finished) <= search.finished
        invariant Elements(neighbors[..i]) <= Elements(search.finished)
      {
        var neighbor := neighbors[i];
        assert Edge(waitingFor, node, neighbor);
        if !Marked(search.visited, neighbor) {
          cycle := Dfs(neighbor, search, here);
          if |cycle| > 0 {
            return cycle;
          }
        } else if Marked(search.recStack, neighbor) {
          cycle := here + [neighbor];
          assert cycle[..|cycle| - 1] == here && neighbor in Elements(here);
          return cycle;
        }
      }
      assert neighbors[..|neighbors|] == neighbors;
      search.Finish(node, waitingFor, path);
      return [];
    }
  }

  lemma FinishNode(g: Graph, order: seq<int>, node: int)
    requires Topological(g, order) && Elements(EdgesOf(g, node)) <= Elements(order)
    ensures Topological(g, order + [node])
  {
    var longer := order + [node];
    forall k, v | 0 <= k < |longer| && Edge(g, longer[k], v) ensures v in longer[..k] {
      if k < |order| {
        assert Edge(g, order[k], v) && longer[..k] == order[..k];
      } else {
        assert longer[..k] == order && v in Elements(order);
      }
    }
  }
}
