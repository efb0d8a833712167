/** Wait-for graphs: walks, cycles, the lasso a depth-first search returns, and
    the three views of "no deadlock" that the proofs move between. */
module WaitForGraph {
  import opened Collections

  /** node ID -> the node IDs it waits for (a node without an entry waits for nobody) */
  type Graph = map<int, seq<int>>

  predicate Edge(g: Graph, u: int, v: int) {
    u in g && v in g[u]
  }

  ghost predicate IsWalk(g: Graph, w: seq<int>) {
    && w != []
    && forall i, j :: 0 <= i < j < |w| && j == i + 1 ==> Edge(g, w[i], w[j])
  }

  ghost predicate IsCycle(g: Graph, w: seq<int>) {
    |w| >= 2 && IsWalk(g, w) && w[0] == w[|w| - 1]
  }

  ghost predicate HasCycle(g: Graph) {
    exists w :: IsCycle(g, w)
  }

  /** The shape of a reported deadlock: a walk whose nodes are pairwise different,
      except that the last one already occurs earlier. */
  ghost predicate IsLasso(g: Graph, w: seq<int>) {
    && |w| >= 2
    && IsWalk(g, w)
    && Distinct(w[..|w| - 1])
    && w[|w| - 1] in w[..|w| - 1]
  }

  /** Every node that occurs in the graph, at either end of an edge. */
  function Nodes(g: Graph): set<int> {
    g.Keys + set u, v | u in g && v in g[u] :: v
  }

  ghost predicate WaitsWithin(g: Graph, s: set<int>, u: int) {
    exists v :: v in s && Edge(g, u, v)
  }

  /** Every member waits for some member: nobody in the set can ever move. */
  ghost predicate Stuck(g: Graph, s: set<int>) {
    s != {} && forall u {:trigger WaitsWithin(g, s, u)} :: u in s ==> WaitsWithin(g, s, u)
  }

  /** Everything a listed node waits for is listed before it. */
  ghost predicate Topological(g: Graph, order: seq<int>) {
    forall k, v :: 0 <= k < |order| && Edge(g, order[k], v) ==> v in order[..k]
  }

  function Rank(order: seq<int>, x: int): (r: nat)
    requires x in order
    ensures r < |order| && order[r] == x && x !in order[..r]
  {
    if order[0] == x then 0 else
      assert order == [order[0]] + order[1..];
      1 + Rank(order[1..], x)
  }

  /** A lasso ends in a real cycle: its suffix from the first visit to the last node. */
  lemma LassoEndsInCycle(g: Graph, w: seq<int>) returns (p: nat)
    requires IsLasso(g, w)
    ensures p < |w| - 1 && IsCycle(g, w[p..]) && Distinct(w[p..|w| - 1])
  {
    p :| 0 <= p < |w| - 1 && w[p] == w[|w| - 1];
  }

  lemma {:induction false} RankFalls(g: Graph, order: seq<int>, w: seq<int>, k: nat)
    requires Topological(g, order) && g.Keys <= Elements(order)
    requires IsWalk(g, w) && 1 <= k < |w|
    ensures w[0] in order && w[k] in order && Rank(order, w[k]) < Rank(order, w[0])
  {
    assert Edge(g, w[k - 1], w[k]);
    assert w[k - 1] in order;
    var r := Rank(order, w[k - 1]);
    assert w[k] in order[..r];
    if k > 1 {
      RankFalls(g, order, w, k - 1);
    }
  }

  /** A topological order that lists every waiting node rules out cycles. */
  lemma TopologicalMeansAcyclic(g: Graph, order: seq<int>)
    requires Topological(g, order) && g.Keys <= Elements(order)
    ensures !HasCycle(g)
  {
    forall w | IsCycle(g, w) ensures false {
      RankFalls(g, order, w, |w| - 1);
    }
  }

  lemma ExtendWalk(g: Graph, w: seq<int>, v: int)
    requires IsWalk(g, w) && Edge(g, w[|w| - 1], v)
    ensures IsWalk(g, w + [v]) && Elements(w + [v]) == Elements(w) + {v}
  {
    var longer := w + [v];
    forall i, j | 0 <= i < j < |longer| && j == i + 1 ensures Edge(g, longer[i], longer[j]) {
      if j < |w| {
        assert Edge(g, w[i], w[j]);
      }
    }
  }

  /** A duplicate-free walk inside a stuck set can be extended until it closes. */
  lemma {:induction false} StuckWalkCloses(g: Graph, s: set<int>, w: seq<int>)
    requires Stuck(g, s) && IsWalk(g, w) && Distinct(w) && Elements(w) <= s
    ensures HasCycle(g)
    decreases s - Elements(w)
  {
    var u := w[|w| - 1];
    assert u in s && WaitsWithin(g, s, u);
    var v :| v in s && Edge(g, u, v);
    ExtendWalk(g, w, v);
    if v in w {
      assert (w + [v])[..|w|] == w;
      var p := LassoEndsInCycle(g, w + [v]);
    } else {
      StuckWalkCloses(g, s, w + [v]);
    }
  }

  lemma StuckHasCycle(g: Graph, s: set<int>)
    requires Stuck(g, s)
    ensures HasCycle(g)
  {
    var u := Pick(s);
    assert Elements([u]) == {u};
    StuckWalkCloses(g, s, [u]);
  }

  /** A graph has a cycle exactly when some nonempty set of nodes is stuck. */
  lemma CycleIffStuck(g: Graph)
    ensures HasCycle(g) <==> exists s :: Stuck(g, s)
  {
    if HasCycle(g) {
      var w :| IsCycle(g, w);
      forall u | u in Elements(w) ensures WaitsWithin(g, Elements(w), u) {
        var k :| 0 <= k < |w| - 1 && w[k] == u;
        assert Edge(g, w[k], w[k + 1]);
      }
      assert w[0] in Elements(w);
      assert Stuck(g, Elements(w));
    }
    forall s | Stuck(g, s) ensures HasCycle(g) {
      StuckHasCycle(g, s);
    }
  }

  /** Without cycles, every wait chain can be followed to a node that waits for nobody. */
  lemma {:induction false} ChainEnds(g: Graph, w: seq<int>) returns (chain: seq<int>)
    requires !HasCycle(g) && IsWalk(g, w) && Distinct(w)
    requires forall u :: u in g ==> g[u] != []
    ensures w <= chain && IsWalk(g, chain) && chain[|chain| - 1] !in g
    decreases g.Keys - Elements(w[..|w| - 1])
  {
    var u := w[|w| - 1];
    if u !in g {
      return w;
    }
    var v := g[u][0];
    var longer := w + [v];
    assert longer[..|longer| - 1] == w;
    if v in w {
      var p := LassoEndsInCycle(g, longer);
      assert false;
    }
    assert Elements(w) == Elements(w[..|w| - 1]) + {u};
    chain := ChainEnds(g, longer);
  }
}
