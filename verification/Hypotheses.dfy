/** Exactly which timing hypotheses mutual exclusion needs. */
module Hypotheses {
  import opened Collections
  import opened RicartAgrawala
  import opened MutualExclusion

  /** Mutual exclusion in every run over these nodes. */
  ghost predicate Safe(r: Rules, ids: set<int>) {
    forall steps :: IsRun(r, Init(ids), steps) ==> Exclusive(Run(Init(ids), steps))
  }

  /** With two or more nodes the protocol is safe exactly when an entry on timeout has waited
      until every other live node has granted the request, or has deferred it and released
      since, or at least until none of them can come first any more, and only crashed nodes
      count as dead. Otherwise some run puts two live nodes in at once. Waiting only for the
      nodes known to have deferred is not enough: a node that has not answered yet may be
      about to enter itself. */
  lemma {:induction false} SafeIff(r: Rules, ids: set<int>)
    ensures Safe(r, ids) <==> Sound(r) || |ids| <= 1
  {
    if Sound(r) {
      forall steps | IsRun(r, Init(ids), steps) ensures Exclusive(Run(Init(ids), steps)) {
        ExclusionAlways(r, ids, steps);
      }
    } else if |ids| <= 1 {
      forall steps | IsRun(r, Init(ids), steps) ensures Exclusive(Run(Init(ids), steps)) {
        InvAlways(r, ids, steps);
        AtMostOne(ids);
      }
    } else {
      var a, b := TwoOf(ids);
      var steps;
      if r.accurate {
        steps := BothOnTimeout(r, ids, a, b);
      } else {
        steps := BothByCount(r, ids, a, b);
      }
      assert !Exclusive(Run(Init(ids), steps));
    }
  }

  lemma AtMostOne(ids: set<int>)
    requires |ids| <= 1
    ensures forall i, j :: i in ids && j in ids ==> i == j
  {
    forall i, j | i in ids && j in ids ensures i == j {
      if i != j {
        SubsetSize({i, j}, ids);
      }
    }
  }

  lemma TwoOf(ids: set<int>) returns (a: int, b: int)
    requires |ids| >= 2
    ensures a in ids && b in ids && a != b
  {
    a := Pick(ids);
    assert |ids - {a}| >= 1;
    b := Pick(ids - {a});
  }

  /** Both nodes ask, nobody answers in time, and both force their way in: nobody is known to
      have deferred, so waiting for the known deferrers alone does not stop them. */
  lemma {:induction false} BothOnTimeout(r: Rules, ids: set<int>, a: int, b: int) returns (steps: seq<Step>)
    requires (r.wait == Nothing || r.wait == KnownDeferrers) && a in ids && b in ids && a != b
    ensures IsRun(r, Init(ids), steps) && !Exclusive(Run(Init(ids), steps))
  {
    var s0 := Init(ids);
    steps := BothAsk(r, ids, a, b);
    assert b in Others(Run(s0, steps), a);
    NobodyCounted(Run(s0, steps), a);
    Extend(r, s0, steps, EnterOnTimeout(a));
    steps := steps + [EnterOnTimeout(a)];
    assert a in Others(Run(s0, steps), b);
    NobodyCounted(Run(s0, steps), b);
    Extend(r, s0, steps, EnterOnTimeout(b));
    steps := steps + [EnterOnTimeout(b)];
    BothIn(Run(s0, steps), a, b);
  }

  lemma BothAsk(r: Rules, ids: set<int>, a: int, b: int) returns (steps: seq<Step>)
    requires a in ids && b in ids && a != b
    ensures IsRun(r, Init(ids), steps)
    ensures var s := Run(Init(ids), steps);
            s.nodes.Keys == ids && Alone(s, a) && Alone(s, b)
  {
    var s0 := Init(ids);
    assert Run(s0, []) == s0;
    Extend(r, s0, [], Begin(a));
    steps := [] + [Begin(a)];
    Extend(r, s0, steps, Begin(b));
    steps := steps + [Begin(b)];
  }

  /** A live node that has asked and heard from nobody. */
  ghost predicate Alone(s: System, i: int) {
    i in s.nodes && s.nodes[i].live && s.nodes[i].phase == Collecting && Heard(s.nodes[i]) == {}
  }

  lemma NobodyCounted(s: System, i: int)
    requires Alone(s, i) && Others(s, i) != {}
    ensures !CountReached(s, i)
  {
    var p := s.nodes[i];
    assert p.granted <= Heard(p) && p.dead <= Heard(p);
    assert p.granted == {} && p.dead == {};
  }

  lemma BothIn(s: System, a: int, b: int)
    requires a in s.nodes && b in s.nodes && a != b && InSection(s, a) && InSection(s, b)
    ensures !Exclusive(s)
  {
  }

  /** Each asks and then takes every other node, slow but alive, for dead. */
  lemma {:induction false} BothByCount(r: Rules, ids: set<int>, a: int, b: int) returns (steps: seq<Step>)
    requires !r.accurate && a in ids && b in ids && a != b
    ensures IsRun(r, Init(ids), steps) && !Exclusive(Run(Init(ids), steps))
  {
    var s0 := Init(ids);
    steps := BothAsk(r, ids, a, b);
    steps := EnterPastTheDead(r, s0, steps, a);
    steps := EnterPastTheDead(r, s0, steps, b);
    BothIn(Run(s0, steps), a, b);
  }

  lemma {:induction false} EnterPastTheDead(r: Rules, s0: System, before: seq<Step>, i: int) returns (steps: seq<Step>)
    requires !r.accurate && IsRun(r, s0, before) && Alone(Run(s0, before), i)
    ensures IsRun(r, s0, steps)
    ensures OnlyMoved(Run(s0, before), Run(s0, steps), i) && InSection(Run(s0, steps), i)
  {
    var s := Run(s0, before);
    assert s.nodes[i].granted <= Heard(s.nodes[i]) && s.nodes[i].dead <= Heard(s.nodes[i]);
    steps := CountAllDead(r, s0, before, i);
    EnterCounted(r, Run(s0, steps), i);
    Extend(r, s0, steps, EnterByCount(i));
    steps := steps + [EnterByCount(i)];
  }

  lemma EnterCounted(r: Rules, s: System, i: int)
    requires OnlyDeaths(s, i) && s.nodes[i].dead == Others(s, i)
    ensures Enabled(r, s, EnterByCount(i))
    ensures OnlyMoved(s, Apply(s, EnterByCount(i)), i) && InSection(Apply(s, EnterByCount(i)), i)
  {
  }

  ghost predicate OnlyMoved(s: System, t: System, i: int) {
    s.nodes.Keys == t.nodes.Keys && i in s.nodes && forall j :: j in s.nodes && j != i ==> t.nodes[j] == s.nodes[j]
  }

  /** i is still collecting and has heard from nobody, though it may have given some up for dead. */
  ghost predicate OnlyDeaths(s: System, i: int) {
    && i in s.nodes && s.nodes[i].live && s.nodes[i].phase == Collecting
    && s.nodes[i].granted == {} && s.nodes[i].deferredBy == {} && s.nodes[i].dead <= Others(s, i)
  }

  lemma CountOne(s: System, i: int, j: int)
    requires OnlyDeaths(s, i) && j in Others(s, i) && j !in s.nodes[i].dead
    ensures var t := Apply(s, CountDead(i, j));
            && OnlyDeaths(t, i) && OnlyMoved(s, t, i)
            && Others(t, i) - t.nodes[i].dead == Others(s, i) - s.nodes[i].dead - {j}
  {
  }

  lemma {:induction false} CountAllDead(r: Rules, s0: System, before: seq<Step>, i: int) returns (steps: seq<Step>)
    requires !r.accurate && IsRun(r, s0, before)
    requires OnlyDeaths(Run(s0, before), i)
    ensures IsRun(r, s0, steps) && OnlyMoved(Run(s0, before), Run(s0, steps), i)
    ensures OnlyDeaths(Run(s0, steps), i) && Run(s0, steps).nodes[i].dead == Others(Run(s0, steps), i)
    decreases var s := Run(s0, before); Others(s, i) - s.nodes[i].dead
  {
    var s := Run(s0, before);
    var missing := Others(s, i) - s.nodes[i].dead;
    if missing == {} {
      assert s.nodes[i].dead == Others(s, i);
      return before;
    }
    var j := Pick(missing);
    Extend(r, s0, before, CountDead(i, j));
    CountOne(s, i, j);
    steps := CountAllDead(r, s0, before + [CountDead(i, j)], i);
  }
}
