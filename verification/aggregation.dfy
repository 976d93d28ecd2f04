/** The three rules that synthesise Q-values for a poorly visited cell from
    the evidence of its well-supported neighbours. Each rule returns, per
    action, the value to write (`Some`) or that the action is left alone (`None`). */
module Aggregation {
  import opened Options
  import opened Stats
  import opened Counters

  /** What one well-supported neighbour offers for the ball-owner class under
      update: its visit counts and its Q-values, both indexed by action. */
  datatype Sample = Sample(counts: seq<nat>, qs: seq<real>)

  predicate WellFormed(ev: seq<Sample>, actions: nat)
  {
    forall i :: 0 <= i < |ev| ==> |ev[i].counts| == actions && |ev[i].qs| == actions
  }

  /** Action ai of a neighbour is trusted when its confidence reaches the
      threshold. A neighbour with no visits at all is never trusted:
      SelfOnlyCounterModule divides 0 by 0 there, and the resulting NaN
      compares false with any threshold. A threshold above one trusts
      nothing, one at or below zero trusts every action of a visited
      neighbour, and ConfidentCounts restates the test on the counts. */
  predicate Confident(s: Sample, ai: int, minConfidence: real)
    requires 0 <= ai < |s.counts|
    ensures Sum(s.counts) == 0 ==> !Confident(s, ai, minConfidence)
    ensures minConfidence > 1.0 ==> !Confident(s, ai, minConfidence)
    ensures Sum(s.counts) > 0 && minConfidence <= 0.0 ==> Confident(s, ai, minConfidence)
    ensures Sum(s.counts) > 0 && s.counts[ai] == Sum(s.counts) ==> (Confident(s, ai, minConfidence) <==> minConfidence <= 1.0)
  {
    Sum(s.counts) > 0 && ConfidenceOf(s.counts, ai) >= minConfidence
  }

  /** The confidence test on the counts themselves: the action's count is at
      least the threshold's share of the neighbour's support. */
  lemma ConfidentCounts(s: Sample, ai: int, minConfidence: real)
    requires 0 <= ai < |s.counts|
    ensures Confident(s, ai, minConfidence) <==>
      Sum(s.counts) > 0 && s.counts[ai] as real >= minConfidence * Sum(s.counts) as real
  {
    if Sum(s.counts) > 0 {
      ScaledThreshold(ConfidenceOf(s.counts, ai), minConfidence, Sum(s.counts) as real, s.counts[ai] as real);
    }
  }

  /** Comparing a share with a threshold is comparing the part with the
      threshold's share of the whole. */
  lemma ScaledThreshold(p: real, m: real, n: real, x: real)
    requires n > 0.0 && p * n == x
    ensures p >= m <==> x >= m * n
  {
    if p >= m {
      assert p * n >= m * n;
    } else {
      assert p * n < m * n;
    }
  }

  /** Which neighbours contribute a value for an action: those confident about
      it (Averaging, TopQ), or those whose greedy action it is (Voting). */
  datatype Selector = ConfidentAbout(action: int, minConfidence: real) | GreedyFor(action: int, minConfidence: real)

  predicate Selects(sel: Selector, s: Sample)
  {
    match sel
    case ConfidentAbout(a, mc) => 0 <= a < |s.counts| && Confident(s, a, mc)
    case GreedyFor(a, mc) => |s.counts| == |s.qs| && Greedy(s, mc) == Some(a)
  }

  /** The Q-values for action ai of the samples `keep` selects, in sample order. */
  function Collect(ev: seq<Sample>, ai: int, keep: Selector): (vs: seq<real>)
    requires 0 <= ai && forall i :: 0 <= i < |ev| ==> ai < |ev[i].qs|
    ensures |vs| <= |ev|
  {
    if |ev| == 0 then []
    else
      var s := ev[|ev| - 1];
      Collect(ev[..|ev| - 1], ai, keep) + (if Selects(keep, s) then [s.qs[ai]] else [])
  }

  /** A value is collected exactly when some selected sample holds it for action ai. */
  lemma CollectMembers(ev: seq<Sample>, ai: int, keep: Selector, v: real)
    requires 0 <= ai && forall i :: 0 <= i < |ev| ==> ai < |ev[i].qs|
    ensures v in Collect(ev, ai, keep) <==> exists i :: 0 <= i < |ev| && Selects(keep, ev[i]) && ev[i].qs[ai] == v
  {
    if v in Collect(ev, ai, keep) {
      var i := CollectWitness(ev, ai, keep, v);
    }
    if exists i :: 0 <= i < |ev| && Selects(keep, ev[i]) && ev[i].qs[ai] == v {
      var i :| 0 <= i < |ev| && Selects(keep, ev[i]) && ev[i].qs[ai] == v;
      CollectComplete(ev, ai, keep, i);
    }
  }

  /** Every collected value comes from a selected sample. */
  lemma {:induction false} CollectWitness(ev: seq<Sample>, ai: int, keep: Selector, v: real) returns (i: int)
    requires 0 <= ai && forall j :: 0 <= j < |ev| ==> ai < |ev[j].qs|
    requires v in Collect(ev, ai, keep)
    ensures 0 <= i < |ev| && Selects(keep, ev[i]) && ev[i].qs[ai] == v
  {
    var k := |ev| - 1;
    var init := ev[..k];
    if v in Collect(init, ai, keep) {
      i := CollectWitness(init, ai, keep, v);
      assert ev[i] == init[i];
    } else {
      i := k;
    }
  }

  /** Every selected sample's value is collected. */
  lemma {:induction false} CollectComplete(ev: seq<Sample>, ai: int, keep: Selector, i: int)
    requires 0 <= ai && forall j :: 0 <= j < |ev| ==> ai < |ev[j].qs|
    requires 0 <= i < |ev| && Selects(keep, ev[i])
    ensures ev[i].qs[ai] in Collect(ev, ai, keep)
  {
    var k := |ev| - 1;
    var init := ev[..k];
    if i < k {
      assert ev[i] == init[i];
      CollectComplete(init, ai, keep, i);
    }
  }

  /** Nothing is collected exactly when no sample is selected. */
  lemma CollectEmpty(ev: seq<Sample>, ai: int, keep: Selector)
    requires 0 <= ai && forall i :: 0 <= i < |ev| ==> ai < |ev[i].qs|
    ensures |Collect(ev, ai, keep)| == 0 <==> forall i :: 0 <= i < |ev| ==> !Selects(keep, ev[i])
  {
    var vs := Collect(ev, ai, keep);
    if |vs| > 0 {
      CollectMembers(ev, ai, keep, vs[0]);
    }
    forall i | 0 <= i < |ev| && Selects(keep, ev[i])
      ensures |vs| > 0
    {
      CollectMembers(ev, ai, keep, ev[i].qs[ai]);
    }
  }

  /** The Q-values for action ai of the neighbours that are confident about it. */
  function Qualified(ev: seq<Sample>, actions: nat, ai: int, minConfidence: real): seq<real>
    requires WellFormed(ev, actions) && 0 <= ai < actions
  {
    Collect(ev, ai, ConfidentAbout(ai, minConfidence))
  }

  /** Averaging: for each action with at least one confident neighbour, the mean of their Q-values. */
  function Averaging(ev: seq<Sample>, actions: nat, minConfidence: real): (u: seq<Option<real>>)
    requires WellFormed(ev, actions)
    ensures |u| == actions
  {
    seq(actions, a requires 0 <= a < actions =>
      var vs := Qualified(ev, actions, a, minConfidence);
      if |vs| > 0 then Some(Mean(vs)) else None)
  }

  /** TopQ: for each action with at least one confident neighbour, the largest of their Q-values. */
  function TopQ(ev: seq<Sample>, actions: nat, minConfidence: real): (u: seq<Option<real>>)
    requires WellFormed(ev, actions)
    ensures |u| == actions
  {
    seq(actions, a requires 0 <= a < actions =>
      var vs := Qualified(ev, actions, a, minConfidence);
      if |vs| > 0 then Some(MaxOf(vs)) else None)
  }

  /** Averaging writes action a exactly when some neighbour is confident about
      it, and then writes the arithmetic mean of the confident neighbours'
      Q-values for a, which lies between the smallest and the largest of them. */
  lemma AveragingWrites(ev: seq<Sample>, actions: nat, minConfidence: real, a: int)
    requires WellFormed(ev, actions) && 0 <= a < actions
    ensures Averaging(ev, actions, minConfidence)[a].Some?
      <==> exists i :: 0 <= i < |ev| && Confident(ev[i], a, minConfidence)
    ensures Averaging(ev, actions, minConfidence)[a].Some? ==>
      var vs := Qualified(ev, actions, a, minConfidence);
      var m := Averaging(ev, actions, minConfidence)[a].value;
      && (forall v :: v in vs <==> exists i :: 0 <= i < |ev| && Confident(ev[i], a, minConfidence) && ev[i].qs[a] == v)
      && MinOf(vs) <= m <= MaxOf(vs)
      && m == Mean(vs)
  {
    var keep := ConfidentAbout(a, minConfidence);
    var vs := Qualified(ev, actions, a, minConfidence);
    CollectEmpty(ev, a, keep);
    forall v
      ensures v in vs <==> exists i :: 0 <= i < |ev| && Confident(ev[i], a, minConfidence) && ev[i].qs[a] == v
    {
      CollectMembers(ev, a, keep, v);
    }
    if |vs| > 0 {
      MeanBounds(vs);
    }
  }

  /** TopQ writes action a exactly when some neighbour is confident about it,
      and then writes the largest Q-value for a among the confident neighbours. */
  lemma TopQWrites(ev: seq<Sample>, actions: nat, minConfidence: real, a: int)
    requires WellFormed(ev, actions) && 0 <= a < actions
    ensures TopQ(ev, actions, minConfidence)[a].Some?
      <==> exists i :: 0 <= i < |ev| && Confident(ev[i], a, minConfidence)
    ensures TopQ(ev, actions, minConfidence)[a].Some? ==>
      var m := TopQ(ev, actions, minConfidence)[a].value;
      && (forall i :: 0 <= i < |ev| && Confident(ev[i], a, minConfidence) ==> ev[i].qs[a] <= m)
      && (exists i :: 0 <= i < |ev| && Confident(ev[i], a, minConfidence) && ev[i].qs[a] == m)
  {
    var keep := ConfidentAbout(a, minConfidence);
    var vs := Qualified(ev, actions, a, minConfidence);
    CollectEmpty(ev, a, keep);
    if |vs| > 0 {
      var m := MaxOf(vs);
      CollectMembers(ev, a, keep, m);
      forall i | 0 <= i < |ev| && Confident(ev[i], a, minConfidence)
        ensures ev[i].qs[a] <= m
      {
        CollectMembers(ev, a, keep, ev[i].qs[a]);
      }
    }
  }

  /** The per-action candidates of one neighbour: its Q-value where it is confident. */
  function Candidates(s: Sample, minConfidence: real): seq<Option<real>>
    requires |s.counts| == |s.qs|
  {
    seq(|s.qs|, a requires 0 <= a < |s.qs| =>
      if Confident(s, a, minConfidence) then Some(s.qs[a]) else None)
  }

  /** A neighbour's greedy action: among its confident actions, the one with
      the largest Q-value, ties going to the lowest index; none when it is
      confident about no action. */
  function Greedy(s: Sample, minConfidence: real): (g: Option<nat>)
    requires |s.counts| == |s.qs|
    ensures g.None? <==> forall a :: 0 <= a < |s.qs| ==> !Confident(s, a, minConfidence)
    ensures g.Some? ==> g.value < |s.qs| && Confident(s, g.value, minConfidence)
    ensures g.Some? ==> forall a :: 0 <= a < |s.qs| && Confident(s, a, minConfidence) ==> s.qs[a] <= s.qs[g.value]
    ensures g.Some? ==> forall a :: 0 <= a < g.value && Confident(s, a, minConfidence) ==> s.qs[a] < s.qs[g.value]
  {
    var cs := Candidates(s, minConfidence);
    assert forall a :: 0 <= a < |s.qs| ==> (cs[a].Some? <==> Confident(s, a, minConfidence));
    FirstArgMax(cs)
  }

  /** The greedy Q-values of the neighbours whose greedy action is a: one vote each. */
  function VotesFor(ev: seq<Sample>, actions: nat, minConfidence: real, a: int): seq<real>
    requires WellFormed(ev, actions) && 0 <= a < actions
  {
    Collect(ev, a, GreedyFor(a, minConfidence))
  }

  /** The vote count of every action that received a vote. */
  function Tally(ev: seq<Sample>, actions: nat, minConfidence: real): (t: seq<Option<real>>)
    requires WellFormed(ev, actions)
    ensures |t| == actions
  {
    seq(actions, a requires 0 <= a < actions =>
      var n := |VotesFor(ev, actions, minConfidence, a)|;
      if n > 0 then Some(n as real) else None)
  }

  /** The action with strictly the most votes, ties going to the lowest index;
      none exactly when nobody votes. */
  function Winner(ev: seq<Sample>, actions: nat, minConfidence: real): (w: Option<nat>)
    requires WellFormed(ev, actions)
    ensures w.None? <==> forall a :: 0 <= a < actions ==> |VotesFor(ev, actions, minConfidence, a)| == 0
    ensures w.Some? ==> w.value < actions && |VotesFor(ev, actions, minConfidence, w.value)| > 0
    ensures w.Some? ==> forall a :: 0 <= a < actions ==>
      |VotesFor(ev, actions, minConfidence, a)| <= |VotesFor(ev, actions, minConfidence, w.value)|
    ensures w.Some? ==> forall a :: 0 <= a < w.value ==>
      |VotesFor(ev, actions, minConfidence, a)| < |VotesFor(ev, actions, minConfidence, w.value)|
  {
    TallyArgMax(ev, actions, minConfidence);
    FirstArgMax(Tally(ev, actions, minConfidence))
  }

  /** The first arg-max of the tally is the first action with the most votes. */
  lemma TallyArgMax(ev: seq<Sample>, actions: nat, minConfidence: real)
    requires WellFormed(ev, actions)
    ensures var w := FirstArgMax(Tally(ev, actions, minConfidence));
      && (w.None? <==> forall a :: 0 <= a < actions ==> |VotesFor(ev, actions, minConfidence, a)| == 0)
      && (w.Some? ==> w.value < actions && |VotesFor(ev, actions, minConfidence, w.value)| > 0)
      && (w.Some? ==> forall a :: 0 <= a < actions ==>
            |VotesFor(ev, actions, minConfidence, a)| <= |VotesFor(ev, actions, minConfidence, w.value)|)
      && (w.Some? ==> forall a :: 0 <= a < w.value ==>
            |VotesFor(ev, actions, minConfidence, a)| < |VotesFor(ev, actions, minConfidence, w.value)|)
  {
    var t := Tally(ev, actions, minConfidence);
    forall a | 0 <= a < actions
      ensures t[a].Some? <==> |VotesFor(ev, actions, minConfidence, a)| > 0
      ensures t[a].Some? ==> t[a].value == |VotesFor(ev, actions, minConfidence, a)| as real
    {
    }
  }

  /** Voting: only the winning action is written, with the largest greedy
      Q-value among the neighbours that voted for it. */
  function Voting(ev: seq<Sample>, actions: nat, minConfidence: real): (u: seq<Option<real>>)
    requires WellFormed(ev, actions)
    ensures |u| == actions
    ensures forall a, b :: 0 <= a < b < actions ==> !(u[a].Some? && u[b].Some?)
  {
    var w := Winner(ev, actions, minConfidence);
    seq(actions, a requires 0 <= a < actions =>
      if w == Some(a) then Some(MaxOf(VotesFor(ev, actions, minConfidence, a))) else None)
  }

  /** A written action won the vote: it has votes, at least as many as any
      action and strictly more than every lower-indexed action, and the value
      written is the largest greedy Q-value among its voters. */
  lemma VotingWinner(ev: seq<Sample>, actions: nat, minConfidence: real, w: int)
    requires WellFormed(ev, actions) && 0 <= w < actions
    requires Voting(ev, actions, minConfidence)[w].Some?
    ensures |VotesFor(ev, actions, minConfidence, w)| > 0
    ensures forall a :: 0 <= a < actions ==>
      |VotesFor(ev, actions, minConfidence, a)| <= |VotesFor(ev, actions, minConfidence, w)|
    ensures forall a :: 0 <= a < w ==>
      |VotesFor(ev, actions, minConfidence, a)| < |VotesFor(ev, actions, minConfidence, w)|
    ensures var m := Voting(ev, actions, minConfidence)[w].value;
      && (forall i :: 0 <= i < |ev| && Greedy(ev[i], minConfidence) == Some(w) ==> ev[i].qs[w] <= m)
      && (exists i :: 0 <= i < |ev| && Greedy(ev[i], minConfidence) == Some(w) && ev[i].qs[w] == m)
  {
    var keep := GreedyFor(w, minConfidence);
    var vs := VotesFor(ev, actions, minConfidence, w);
    var m := MaxOf(vs);
    assert Winner(ev, actions, minConfidence) == Some(w);
    assert Voting(ev, actions, minConfidence)[w].value == m;
    CollectMembers(ev, w, keep, m);
    forall i | 0 <= i < |ev| && Greedy(ev[i], minConfidence) == Some(w)
      ensures ev[i].qs[w] <= m
    {
      CollectMembers(ev, w, keep, ev[i].qs[w]);
    }
  }

  /** Voting writes nothing exactly when no neighbour casts a vote, that is,
      when no neighbour is confident about any action. */
  lemma VotingSilent(ev: seq<Sample>, actions: nat, minConfidence: real)
    requires WellFormed(ev, actions)
    ensures (forall a :: 0 <= a < actions ==> Voting(ev, actions, minConfidence)[a].None?)
      <==> (forall i, a :: 0 <= i < |ev| && 0 <= a < actions ==> !Confident(ev[i], a, minConfidence))
  {
    var u := Voting(ev, actions, minConfidence);
    var t := Tally(ev, actions, minConfidence);
    if exists i, a :: 0 <= i < |ev| && 0 <= a < actions && Confident(ev[i], a, minConfidence) {
      var i, a0 :| 0 <= i < |ev| && 0 <= a0 < actions && Confident(ev[i], a0, minConfidence);
      var g := Greedy(ev[i], minConfidence).value;
      var keep := GreedyFor(g, minConfidence);
      CollectMembers(ev, g, keep, ev[i].qs[g]);
      assert t[g].Some?;
      var w := Winner(ev, actions, minConfidence);
      assert u[w.value].Some?;
    } else {
      forall a | 0 <= a < actions
        ensures t[a].None?
      {
        var keep := GreedyFor(a, minConfidence);
        CollectEmpty(ev, a, keep);
      }
    }
  }

  /** One more sample contributes its value for ai exactly when it is selected. */
  lemma CollectSnoc(ev: seq<Sample>, s: Sample, ai: int, keep: Selector)
    requires 0 <= ai < |s.qs| && forall i :: 0 <= i < |ev| ==> ai < |ev[i].qs|
    ensures Collect(ev + [s], ai, keep) == Collect(ev, ai, keep) + (if Selects(keep, s) then [s.qs[ai]] else [])
  {
    assert (ev + [s])[..|ev|] == ev;
  }

}
