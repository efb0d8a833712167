/** The weakest condition under which a node may enter its critical section. */
module WeakestEntry {
  import opened Collections
  import opened RequestState
  import opened RicartAgrawala
  import opened MutualExclusion
  import opened RequestOrder

  /** However the run goes on, if later entries are careful no two live nodes are ever inside. */
  ghost predicate SafeFrom(ids: set<int>, steps: seq<Step>) {
    forall all :: steps <= all && IsRun(FREE, Init(ids), all) && Careful(ids, |steps|, all) ==>
      Exclusive(After(ids, all))
  }

  /** An entry, by count or on timeout, is safe if and only if no other live node has or can
      still make a request that precedes the entering node's own. It does not matter who has
      granted what, whose answers were received, and who was rightly or wrongly taken for dead. */
  lemma {:induction false} EntrySafeIff(ids: set<int>, steps: seq<Step>, entry: Step)
    requires IsRun(FREE, Init(ids), steps) && Careful(ids, 0, steps)
    requires IsEntry(entry) && Enabled(FREE, After(ids, steps), entry)
    ensures SafeFrom(ids, steps + [entry]) <==> AllBehind(After(ids, steps), entry.i)
  {
    var s := After(ids, steps);
    if AllBehind(s, entry.i) {
      forall all | steps + [entry] <= all && IsRun(FREE, Init(ids), all) && Careful(ids, |steps| + 1, all)
        ensures Exclusive(After(ids, all))
      {
        CarefulEntry(ids, steps, entry);
        assert all[..|steps| + 1] == steps + [entry];
        CarefulKept(ids, |steps| + 1, all);
        InvAlways(FREE, ids, all);
        BackedExcludes(After(ids, all));
      }
    } else {
      var j :| j in Others(s, entry.i) && s.nodes[j].live && !Behind(s, entry.i, j);
      var all := NodeAheadGetsIn(ids, steps, entry, j);
    }
  }

  lemma CarefulEntry(ids: set<int>, steps: seq<Step>, entry: Step)
    requires IsRun(FREE, Init(ids), steps) && Careful(ids, 0, steps)
    requires IsEntry(entry) && Enabled(FREE, After(ids, steps), entry) && AllBehind(After(ids, steps), entry.i)
    ensures EntriesBacked(After(ids, steps + [entry]))
  {
    CarefulKept(ids, 0, steps);
    InvAlways(FREE, ids, steps);
    EntriesBackedKept(After(ids, steps), entry);
    Extend(FREE, Init(ids), steps, entry);
  }

  /** i is inside, and j waits with a request that precedes i's. */
  ghost predicate Overtaken(s: System, i: int, j: int) {
    && i in s.nodes && j in s.nodes && i != j && InSection(s, i)
    && Waits(s, i) && Waits(s, j) && Before(Own(s, j), Own(s, i))
  }

  lemma EnteredTooEarly(s: System, entry: Step, j: int)
    requires Inv(s) && IsEntry(entry) && Enabled(FREE, s, entry)
    requires j in Others(s, entry.i) && s.nodes[j].live && !Behind(s, entry.i, j)
    ensures var t := Apply(s, entry);
            if t.nodes[j].state.requesting then Overtaken(t, entry.i, j)
            else Enabled(STRICT, t, Begin(j)) && Overtaken(Apply(t, Begin(j)), entry.i, j)
  {
    assert LocalOk(s.nodes[entry.i], entry.i) && LocalOk(s.nodes[j], j);
  }

  lemma OvertakenGetsIn(ids: set<int>, steps: seq<Step>, i: int, j: int) returns (all: seq<Step>)
    requires IsRun(FREE, Init(ids), steps) && Overtaken(After(ids, steps), i, j)
    ensures steps <= all && Orderly(ids, |steps|, all) && !Exclusive(After(ids, all))
  {
    all := EveryWaiterGetsIn(ids, |steps|, steps, j);
    assert InSection(After(ids, all), i);
  }

  /** A continuation by steps that all hypotheses allow. */
  ghost predicate Allowed(ids: set<int>, n: nat, steps: seq<Step>) {
    && IsRun(FREE, Init(ids), steps) && Careful(ids, n, steps)
    && forall k {:trigger steps[k]} :: n <= k < |steps| ==> Enabled(STRICT, After(ids, steps[..k]), steps[k])
  }

  lemma AllowedAfterBegin(ids: set<int>, steps: seq<Step>, j: int, all: seq<Step>)
    requires Enabled(STRICT, After(ids, steps), Begin(j))
    requires steps + [Begin(j)] <= all && Orderly(ids, |steps| + 1, all)
    ensures Allowed(ids, |steps|, all)
  {
    assert all[|steps|] == (steps + [Begin(j)])[|steps|] == Begin(j);
    assert all[..|steps|] == (steps + [Begin(j)])[..|steps|] == steps;
    forall k {:trigger all[k]} | |steps| <= k < |all|
      ensures Enabled(STRICT, After(ids, all[..k]), all[k])
    {
      assert k > |steps| ==> OrderlyStep(ids, all[..k], all[k]);
    }
  }

  /** While i is inside, a live node j whose request precedes i's, or whose next one will, can
      be led in as well, by steps that all hypotheses allow. */
  lemma NodeAheadGetsIn(ids: set<int>, steps: seq<Step>, entry: Step, j: int) returns (all: seq<Step>)
    requires IsRun(FREE, Init(ids), steps) && IsEntry(entry) && Enabled(FREE, After(ids, steps), entry)
    requires j in Others(After(ids, steps), entry.i) && After(ids, steps).nodes[j].live
    requires !Behind(After(ids, steps), entry.i, j)
    ensures steps + [entry] <= all && Allowed(ids, |steps| + 1, all) && !Exclusive(After(ids, all))
  {
    InvAlways(FREE, ids, steps);
    EnteredTooEarly(After(ids, steps), entry, j);
    Extend(FREE, Init(ids), steps, entry);
    var entered := steps + [entry];
    if After(ids, entered).nodes[j].state.requesting {
      all := OvertakenGetsIn(ids, entered, entry.i, j);
      assert forall k {:trigger all[k]} :: |entered| <= k < |all| ==> OrderlyStep(ids, all[..k], all[k]);
    } else {
      Extend(FREE, Init(ids), entered, Begin(j));
      all := OvertakenGetsIn(ids, entered + [Begin(j)], entry.i, j);
      AllowedAfterBegin(ids, entered, j, all);
    }
  }
}
