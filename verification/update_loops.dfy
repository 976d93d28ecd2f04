/** The per-cell rules and the full pass written as SelfOnlyCounterModule's loops:
    per-action counts and values are accumulated neighbour by neighbour, then
    each action is decided on its own. Every method is proved to compute
    exactly the rule the Generalisation and Aggregation modules define. */
module UpdateLoops {
  import opened Options
  import opened Grid
  import opened Seqs
  import opened Stats
  import opened Counters
  import opened Rings
  import opened Aggregation
  import opened Generalisation

  /** The evidence the update of cell (r, c, b) draws on. */
  function CellEvidence(cnt: Table4<nat>, q: Table4<real>, sh: Shape, cfg: Config, r: int, c: int, b: int): seq<Sample>
    requires WellShaped(cnt, sh) && WellShaped(q, sh) && InTable(sh, r, c, b)
  {
    Evidence(cnt, q, sh, cfg.minSupport, KCyclicNeighbors(sh.rows, sh.cols, r, c, cfg.k), b)
  }

  /** The running per-action sums and counts of the averaging loop match the
      confident neighbours' Q-values seen so far, for the actions in [lo, hi). */
  ghost predicate AveragingSoFar(ev: seq<Sample>, actions: nat, mc: real, sums: seq<real>, counts: seq<nat>, lo: int, hi: int)
    requires WellFormed(ev, actions)
  {
    && |sums| == actions && |counts| == actions
    && forall a :: 0 <= lo <= a < hi <= actions ==>
         sums[a] == RealSum(Qualified(ev, actions, a, mc)) && counts[a] == |Qualified(ev, actions, a, mc)|
  }

  /** Action ai of a supported neighbour passes SelfOnlyCounterModule's confidence
      test exactly when its sample is confident about ai. */
  lemma ConfidenceTest(cnt: Table4<nat>, q: Table4<real>, sh: Shape, n: Cell, b: int, support: nat, ai: int, mc: real)
    requires WellShaped(cnt, sh) && WellShaped(q, sh) && InTable(sh, n.row, n.col, b) && 0 <= ai < sh.actions
    requires support == Support(cnt, sh, n.row, n.col, b)
    ensures var s := NeighborSample(cnt, q, sh, n, b);
      && |s.counts| == sh.actions && |s.qs| == sh.actions && s.qs[ai] == q[n.row][n.col][b][ai]
      && (Confident(s, ai, mc) <==> support > 0 && GetActionConfidence(cnt, sh, n.row, n.col, b, ai) >= mc)
  {
  }

  /** Settling the sum and count of action ai for the longer evidence moves
      the boundary between the settled and the pending actions one step. */
  lemma AveragingStep(ev: seq<Sample>, ev': seq<Sample>, actions: nat, mc: real, sums: seq<real>, counts: seq<nat>,
                      ai: int, sum: real, count: nat)
    requires WellFormed(ev, actions) && WellFormed(ev', actions) && 0 <= ai < actions
    requires AveragingSoFar(ev', actions, mc, sums, counts, 0, ai) && AveragingSoFar(ev, actions, mc, sums, counts, ai, actions)
    requires sum == RealSum(Qualified(ev', actions, ai, mc)) && count == |Qualified(ev', actions, ai, mc)|
    ensures AveragingSoFar(ev', actions, mc, sums[ai := sum], counts[ai := count], 0, ai + 1)
    ensures AveragingSoFar(ev, actions, mc, sums[ai := sum], counts[ai := count], ai + 1, actions)
  {
  }

  /** The inner loop of the averaging rule over one supported neighbour: adds
      the Q-value of every action the neighbour is confident about. */
  method AccumulateAveraging(cnt: Table4<nat>, q: Table4<real>, sh: Shape, n: Cell, b: int, support: nat, mc: real,
                             ghost ev: seq<Sample>, sums: seq<real>, counts: seq<nat>)
    returns (sums': seq<real>, counts': seq<nat>)
    requires WellShaped(cnt, sh) && WellShaped(q, sh) && InTable(sh, n.row, n.col, b)
    requires support == Support(cnt, sh, n.row, n.col, b)
    requires WellFormed(ev, sh.actions) && AveragingSoFar(ev, sh.actions, mc, sums, counts, 0, sh.actions)
    ensures WellFormed(ev + [NeighborSample(cnt, q, sh, n, b)], sh.actions)
    ensures AveragingSoFar(ev + [NeighborSample(cnt, q, sh, n, b)], sh.actions, mc, sums', counts', 0, sh.actions)
  {
    ghost var s := NeighborSample(cnt, q, sh, n, b);
    ghost var ev' := ev + [s];
    assert |s.counts| == sh.actions && |s.qs| == sh.actions;
    sums', counts' := sums, counts;
    var ai := 0;
    while ai < sh.actions
      invariant 0 <= ai <= sh.actions
      invariant AveragingSoFar(ev', sh.actions, mc, sums', counts', 0, ai)
      invariant AveragingSoFar(ev, sh.actions, mc, sums', counts', ai, sh.actions)
    {
      ConfidenceTest(cnt, q, sh, n, b, support, ai, mc);
      CollectSnoc(ev, s, ai, ConfidentAbout(ai, mc));
      ghost var before := Qualified(ev, sh.actions, ai, mc);
      var sum, count := sums'[ai], counts'[ai];
      if support > 0 && GetActionConfidence(cnt, sh, n.row, n.col, b, ai) >= mc {
        assert Qualified(ev', sh.actions, ai, mc) == before + [s.qs[ai]];
        RealSumSnoc(before, s.qs[ai]);
        sum, count := sum + q[n.row][n.col][b][ai], count + 1;
      } else {
        assert Qualified(ev', sh.actions, ai, mc) == before + [];
        assert before + [] == before;
      }
      AveragingStep(ev, ev', sh.actions, mc, sums', counts', ai, sum, count);
      sums', counts' := sums'[ai := sum], counts'[ai := count];
      ai := ai + 1;
    }
  }

  /** The final loop of the averaging rule: sum / count for every action
      that has a nonzero count, nothing for the others. */
  method Quotients(sums: seq<real>, counts: seq<nat>) returns (u: seq<Option<real>>)
    requires |sums| == |counts|
    ensures |u| == |sums|
    ensures forall a :: 0 <= a < |u| ==> u[a] == if counts[a] > 0 then Some(sums[a] / counts[a] as real) else None
  {
    u := [];
    var ai := 0;
    while ai < |sums|
      invariant 0 <= ai <= |sums|
      invariant |u| == ai
      invariant forall a :: 0 <= a < ai ==> u[a] == if counts[a] > 0 then Some(sums[a] / counts[a] as real) else None
    {
      if counts[ai] > 0 {
        u := u + [Some(sums[ai] / counts[ai] as real)];
      } else {
        u := u + [None];
      }
      ai := ai + 1;
    }
  }

  /** The neighbour loop of the Averaging rule: visits ns in order and
      accumulates every supported neighbour. */
  method NeighborsAveraging(cnt: Table4<nat>, q: Table4<real>, sh: Shape, cfg: Config, b: int, ns: seq<Cell>)
    returns (sums: seq<real>, counts: seq<nat>)
    requires WellShaped(cnt, sh) && WellShaped(q, sh) && 0 <= b < BallOwnerStates
    requires forall n :: n in ns ==> InGrid(n, sh.rows, sh.cols)
    ensures AveragingSoFar(Evidence(cnt, q, sh, cfg.minSupport, ns, b), sh.actions, cfg.minConfidence, sums, counts, 0, sh.actions)
  {
    var mc := cfg.minConfidence;
    sums := seq(sh.actions, _ => 0.0);
    counts := seq(sh.actions, _ => 0);
    ghost var ev: seq<Sample> := [];
    var i := 0;
    while i < |ns|
      invariant 0 <= i <= |ns|
      invariant ev == Evidence(cnt, q, sh, cfg.minSupport, ns[..i], b)
      invariant AveragingSoFar(ev, sh.actions, mc, sums, counts, 0, sh.actions)
    {
      var n := ns[i];
      assert ns[..i + 1] == ns[..i] + [n];
      EvidenceSnoc(cnt, q, sh, cfg.minSupport, ns[..i], n, b);
      var support := GetSupport(cnt, sh, n.row, n.col, b);
      if support as real >= cfg.minSupport {
        sums, counts := AccumulateAveraging(cnt, q, sh, n, b, support, mc, ev, sums, counts);
        ev := ev + [NeighborSample(cnt, q, sh, n, b)];
      }
      i := i + 1;
    }
    assert ns[..i] == ns;
  }

  /** PerformAveraging: sums and counts the Q-values of confident actions of
      supported neighbours, then writes sum / count for every action with a
      nonzero count. The result is the Averaging rule on the cell's evidence. */
  method PerformAveraging(cnt: Table4<nat>, q: Table4<real>, sh: Shape, cfg: Config, r: int, c: int, b: int)
    returns (u: seq<Option<real>>)
    requires WellShaped(cnt, sh) && WellShaped(q, sh) && InTable(sh, r, c, b)
    ensures u == Averaging(CellEvidence(cnt, q, sh, cfg, r, c, b), sh.actions, cfg.minConfidence)
  {
    var ns := GetKCyclicNeighbors(sh.rows, sh.cols, r, c, cfg.k);
    var sums, counts := NeighborsAveraging(cnt, q, sh, cfg, b, ns);
    u := Quotients(sums, counts);
    MeansOfSums(CellEvidence(cnt, q, sh, cfg, r, c, b), sh.actions, cfg.minConfidence, sums, counts, u);
  }

  /** Dividing the accumulated sums by the accumulated counts yields the Averaging rule. */
  lemma MeansOfSums(ev: seq<Sample>, actions: nat, mc: real, sums: seq<real>, counts: seq<nat>, u: seq<Option<real>>)
    requires WellFormed(ev, actions) && AveragingSoFar(ev, actions, mc, sums, counts, 0, actions)
    requires |u| == actions
    requires forall a :: 0 <= a < |u| ==> u[a] == if counts[a] > 0 then Some(sums[a] / counts[a] as real) else None
    ensures u == Averaging(ev, actions, mc)
  {
    forall a | 0 <= a < actions
      ensures u[a] == Averaging(ev, actions, mc)[a]
    {
      var vs := Qualified(ev, actions, a, mc);
      assert Averaging(ev, actions, mc)[a] == if |vs| > 0 then Some(Mean(vs)) else None;
    }
  }

  /** The largest of some values, or `None` for none: SelfOnlyCounterModule starts
      from the sentinel Double.MinValue and raises it on every larger value. */
  function Highest(vs: seq<real>): Option<real>
  {
    if |vs| > 0 then Some(MaxOf(vs)) else None
  }

  /** Raising the running maximum with one more value. */
  lemma HighestSnoc(vs: seq<real>, v: real)
    ensures Highest(vs + [v]) == (if Highest(vs).None? || v > Highest(vs).value then Some(v) else Highest(vs))
  {
    if |vs| == 0 {
      assert vs + [v] == [v];
    } else {
      MaxOfSnoc(vs, v);
    }
  }

  /** The running per-action maxima and counts of the TopQ loop match the
      confident neighbours' Q-values seen so far, for the actions in [lo, hi). */
  ghost predicate TopQSoFar(ev: seq<Sample>, actions: nat, mc: real, best: seq<Option<real>>, counts: seq<nat>, lo: int, hi: int)
    requires WellFormed(ev, actions)
  {
    && |best| == actions && |counts| == actions
    && forall a :: 0 <= lo <= a < hi <= actions ==>
         best[a] == Highest(Qualified(ev, actions, a, mc)) && counts[a] == |Qualified(ev, actions, a, mc)|
  }

  /** Settling the maximum and count of action ai for the longer evidence
      moves the boundary between the settled and the pending actions one step. */
  lemma TopQStep(ev: seq<Sample>, ev': seq<Sample>, actions: nat, mc: real, best: seq<Option<real>>, counts: seq<nat>,
                 ai: int, top: Option<real>, count: nat)
    requires WellFormed(ev, actions) && WellFormed(ev', actions) && 0 <= ai < actions
    requires TopQSoFar(ev', actions, mc, best, counts, 0, ai) && TopQSoFar(ev, actions, mc, best, counts, ai, actions)
    requires top == Highest(Qualified(ev', actions, ai, mc)) && count == |Qualified(ev', actions, ai, mc)|
    ensures TopQSoFar(ev', actions, mc, best[ai := top], counts[ai := count], 0, ai + 1)
    ensures TopQSoFar(ev, actions, mc, best[ai := top], counts[ai := count], ai + 1, actions)
  {
  }

  /** The inner loop of the TopQ rule over one supported neighbour: raises the
      running maximum and the count of every action the neighbour is confident about. */
  method AccumulateTopQ(cnt: Table4<nat>, q: Table4<real>, sh: Shape, n: Cell, b: int, support: nat, mc: real,
                        ghost ev: seq<Sample>, best: seq<Option<real>>, counts: seq<nat>)
    returns (best': seq<Option<real>>, counts': seq<nat>)
    requires WellShaped(cnt, sh) && WellShaped(q, sh) && InTable(sh, n.row, n.col, b)
    requires support == Support(cnt, sh, n.row, n.col, b)
    requires WellFormed(ev, sh.actions) && TopQSoFar(ev, sh.actions, mc, best, counts, 0, sh.actions)
    ensures WellFormed(ev + [NeighborSample(cnt, q, sh, n, b)], sh.actions)
    ensures TopQSoFar(ev + [NeighborSample(cnt, q, sh, n, b)], sh.actions, mc, best', counts', 0, sh.actions)
  {
    ghost var s := NeighborSample(cnt, q, sh, n, b);
    ghost var ev' := ev + [s];
    assert |s.counts| == sh.actions && |s.qs| == sh.actions;
    best', counts' := best, counts;
    var ai := 0;
    while ai < sh.actions
      invariant 0 <= ai <= sh.actions
      invariant TopQSoFar(ev', sh.actions, mc, best', counts', 0, ai)
      invariant TopQSoFar(ev, sh.actions, mc, best', counts', ai, sh.actions)
    {
      ConfidenceTest(cnt, q, sh, n, b, support, ai, mc);
      CollectSnoc(ev, s, ai, ConfidentAbout(ai, mc));
      ghost var before := Qualified(ev, sh.actions, ai, mc);
      var top, count := best'[ai], counts'[ai];
      if support > 0 && GetActionConfidence(cnt, sh, n.row, n.col, b, ai) >= mc {
        assert Qualified(ev', sh.actions, ai, mc) == before + [s.qs[ai]];
        HighestSnoc(before, s.qs[ai]);
        var qValue := q[n.row][n.col][b][ai];
        if top.None? || qValue > top.value {
          top := Some(qValue);
        }
        count := count + 1;
      } else {
        assert Qualified(ev', sh.actions, ai, mc) == before + [];
        assert before + [] == before;
      }
      TopQStep(ev, ev', sh.actions, mc, best', counts', ai, top, count);
      best', counts' := best'[ai := top], counts'[ai := count];
      ai := ai + 1;
    }
  }

  /** The final loop of the TopQ rule: the maximum for every action that was
      counted and raised above the sentinel, nothing for the others. */
  method Maxima(best: seq<Option<real>>, counts: seq<nat>) returns (u: seq<Option<real>>)
    requires |best| == |counts|
    ensures |u| == |best|
    ensures forall a :: 0 <= a < |u| ==> u[a] == if counts[a] > 0 && best[a].Some? then best[a] else None
  {
    u := [];
    var ai := 0;
    while ai < |best|
      invariant 0 <= ai <= |best|
      invariant |u| == ai
      invariant forall a :: 0 <= a < ai ==> u[a] == if counts[a] > 0 && best[a].Some? then best[a] else None
    {
      if counts[ai] > 0 && best[ai].Some? {
        u := u + [Some(best[ai].value)];
      } else {
        u := u + [None];
      }
      ai := ai + 1;
    }
  }

  /** The neighbour loop of the TopQ rule: visits ns in order and
      accumulates every supported neighbour. */
  method NeighborsTopQ(cnt: Table4<nat>, q: Table4<real>, sh: Shape, cfg: Config, b: int, ns: seq<Cell>)
    returns (best: seq<Option<real>>, counts: seq<nat>)
    requires WellShaped(cnt, sh) && WellShaped(q, sh) && 0 <= b < BallOwnerStates
    requires forall n :: n in ns ==> InGrid(n, sh.rows, sh.cols)
    ensures TopQSoFar(Evidence(cnt, q, sh, cfg.minSupport, ns, b), sh.actions, cfg.minConfidence, best, counts, 0, sh.actions)
  {
    var mc := cfg.minConfidence;
    best := seq(sh.actions, _ => None);
    counts := seq(sh.actions, _ => 0);
    ghost var ev: seq<Sample> := [];
    var i := 0;
    while i < |ns|
      invariant 0 <= i <= |ns|
      invariant ev == Evidence(cnt, q, sh, cfg.minSupport, ns[..i], b)
      invariant TopQSoFar(ev, sh.actions, mc, best, counts, 0, sh.actions)
    {
      var n := ns[i];
      assert ns[..i + 1] == ns[..i] + [n];
      EvidenceSnoc(cnt, q, sh, cfg.minSupport, ns[..i], n, b);
      var support := GetSupport(cnt, sh, n.row, n.col, b);
      if support as real >= cfg.minSupport {
        best, counts := AccumulateTopQ(cnt, q, sh, n, b, support, mc, ev, best, counts);
        ev := ev + [NeighborSample(cnt, q, sh, n, b)];
      }
      i := i + 1;
    }
    assert ns[..i] == ns;
  }

  /** PerformTopQ: tracks, per action, the largest Q-value and the number of
      confident supported neighbours, then writes the maximum of every action
      that has one. The result is the TopQ rule on the cell's evidence. */
  method PerformTopQ(cnt: Table4<nat>, q: Table4<real>, sh: Shape, cfg: Config, r: int, c: int, b: int)
    returns (u: seq<Option<real>>)
    requires WellShaped(cnt, sh) && WellShaped(q, sh) && InTable(sh, r, c, b)
    ensures u == TopQ(CellEvidence(cnt, q, sh, cfg, r, c, b), sh.actions, cfg.minConfidence)
  {
    var ns := GetKCyclicNeighbors(sh.rows, sh.cols, r, c, cfg.k);
    var best, counts := NeighborsTopQ(cnt, q, sh, cfg, b, ns);
    u := Maxima(best, counts);
    MaximaOfNeighbors(CellEvidence(cnt, q, sh, cfg, r, c, b), sh.actions, cfg.minConfidence, best, counts, u);
  }

  /** Writing the accumulated maxima yields the TopQ rule. */
  lemma MaximaOfNeighbors(ev: seq<Sample>, actions: nat, mc: real, best: seq<Option<real>>, counts: seq<nat>, u: seq<Option<real>>)
    requires WellFormed(ev, actions) && TopQSoFar(ev, actions, mc, best, counts, 0, actions)
    requires |u| == actions
    requires forall a :: 0 <= a < |u| ==> u[a] == if counts[a] > 0 && best[a].Some? then best[a] else None
    ensures u == TopQ(ev, actions, mc)
  {
    forall a | 0 <= a < actions
      ensures u[a] == TopQ(ev, actions, mc)[a]
    {
      var vs := Qualified(ev, actions, a, mc);
      assert TopQ(ev, actions, mc)[a] == Highest(vs);
    }
  }

  /** The greedy loop of the voting rule over one supported neighbour: among
      the actions it is confident about, the first with the strictly largest
      Q-value. gi is -1 when there is none, as in SelfOnlyCounterModule. */
  method GreedyAction(cnt: Table4<nat>, q: Table4<real>, sh: Shape, n: Cell, b: int, support: nat, mc: real)
    returns (gi: int, gv: Option<real>)
    requires WellShaped(cnt, sh) && WellShaped(q, sh) && InTable(sh, n.row, n.col, b)
    requires support == Support(cnt, sh, n.row, n.col, b)
    ensures var s := NeighborSample(cnt, q, sh, n, b);
      |s.counts| == |s.qs|
      && (Greedy(s, mc).None? ==> gi == -1)
      && (Greedy(s, mc).Some? ==> gi == Greedy(s, mc).value && gv == Some(s.qs[gi]))
  {
    ghost var s := NeighborSample(cnt, q, sh, n, b);
    assert |s.counts| == sh.actions && |s.qs| == sh.actions;
    ghost var cs := Candidates(s, mc);
    gi, gv := -1, None;
    var ai := 0;
    while ai < sh.actions
      invariant 0 <= ai <= sh.actions
      invariant Tracks(cs[..ai], gi, gv)
    {
      ConfidenceTest(cnt, q, sh, n, b, support, ai, mc);
      assert cs[ai] == if Confident(s, ai, mc) then Some(s.qs[ai]) else None;
      TracksSnoc(cs[..ai], cs[ai], gi, gv);
      assert cs[..ai + 1] == cs[..ai] + [cs[ai]];
      ghost var takes := cs[ai].Some? && (gv.None? || cs[ai].value > gv.value);
      ghost var next := (if takes then ai else gi, if takes then cs[ai] else gv);
      if support > 0 && GetActionConfidence(cnt, sh, n.row, n.col, b, ai) >= mc {
        var qValue := q[n.row][n.col][b][ai];
        if gv.None? || qValue > gv.value {
          gv := Some(qValue);
          gi := ai;
        }
      }
      assert (gi, gv) == next;
      ai := ai + 1;
    }
    assert cs[..ai] == cs;
  }

  /** The running per-action vote counts and best greedy values of the voting
      loop match the votes cast by the neighbours seen so far. */
  ghost predicate VotingSoFar(ev: seq<Sample>, actions: nat, mc: real, best: seq<Option<real>>, votes: seq<nat>)
    requires WellFormed(ev, actions)
  {
    && |best| == actions && |votes| == actions
    && forall a :: 0 <= a < actions ==>
         best[a] == Highest(VotesFor(ev, actions, mc, a)) && votes[a] == |VotesFor(ev, actions, mc, a)|
  }

  /** Records one neighbour's vote: its greedy action gets one more vote, and
      that action's best value is raised to the neighbour's greedy Q-value. */
  method CastVote(ghost ev: seq<Sample>, ghost s: Sample, actions: nat, mc: real, gi: int, gv: Option<real>,
                  best: seq<Option<real>>, votes: seq<nat>)
    returns (best': seq<Option<real>>, votes': seq<nat>)
    requires WellFormed(ev, actions) && |s.counts| == actions && |s.qs| == actions
    requires VotingSoFar(ev, actions, mc, best, votes)
    requires Greedy(s, mc).None? ==> gi == -1
    requires Greedy(s, mc).Some? ==> gi == Greedy(s, mc).value && gv == Some(s.qs[gi])
    ensures WellFormed(ev + [s], actions)
    ensures VotingSoFar(ev + [s], actions, mc, best', votes')
  {
    best', votes' := best, votes;
    if gi >= 0 {
      votes' := votes'[gi := votes'[gi] + 1];
      if best'[gi].None? || gv.value > best'[gi].value {
        best' := best'[gi := gv];
      }
    }
    forall a | 0 <= a < actions
      ensures best'[a] == Highest(VotesFor(ev + [s], actions, mc, a))
      ensures votes'[a] == |VotesFor(ev + [s], actions, mc, a)|
    {
      VoteSnoc(ev, s, actions, mc, gi, a);
      if gi == a {
        assert gv == Some(s.qs[a]);
        HighestSnoc(VotesFor(ev, actions, mc, a), s.qs[a]);
      } else {
        assert best'[a] == best[a] && votes'[a] == votes[a];
      }
    }
  }

  /** A neighbour adds its greedy Q-value to the votes of its greedy action
      and nothing to the votes of any other action. */
  lemma VoteSnoc(ev: seq<Sample>, s: Sample, actions: nat, mc: real, gi: int, a: int)
    requires WellFormed(ev, actions) && |s.counts| == actions && |s.qs| == actions && 0 <= a < actions
    requires Greedy(s, mc).None? ==> gi == -1
    requires Greedy(s, mc).Some? ==> gi == Greedy(s, mc).value
    ensures WellFormed(ev + [s], actions)
    ensures gi == a ==> VotesFor(ev + [s], actions, mc, a) == VotesFor(ev, actions, mc, a) + [s.qs[a]]
    ensures gi != a ==> VotesFor(ev + [s], actions, mc, a) == VotesFor(ev, actions, mc, a)
  {
    CollectSnoc(ev, s, a, GreedyFor(a, mc));
    if gi != a {
      assert VotesFor(ev, actions, mc, a) + [] == VotesFor(ev, actions, mc, a);
    }
  }

  /** The neighbour loop of the voting rule: every supported neighbour with a
      greedy action casts one vote for it. */
  method NeighborsVoting(cnt: Table4<nat>, q: Table4<real>, sh: Shape, cfg: Config, b: int, ns: seq<Cell>)
    returns (best: seq<Option<real>>, votes: seq<nat>)
    requires WellShaped(cnt, sh) && WellShaped(q, sh) && 0 <= b < BallOwnerStates
    requires forall n :: n in ns ==> InGrid(n, sh.rows, sh.cols)
    ensures VotingSoFar(Evidence(cnt, q, sh, cfg.minSupport, ns, b), sh.actions, cfg.minConfidence, best, votes)
  {
    var mc := cfg.minConfidence;
    best := seq(sh.actions, _ => None);
    votes := seq(sh.actions, _ => 0);
    ghost var ev: seq<Sample> := [];
    var i := 0;
    while i < |ns|
      invariant 0 <= i <= |ns|
      invariant ev == Evidence(cnt, q, sh, cfg.minSupport, ns[..i], b)
      invariant VotingSoFar(ev, sh.actions, mc, best, votes)
    {
      var n := ns[i];
      assert ns[..i + 1] == ns[..i] + [n];
      EvidenceSnoc(cnt, q, sh, cfg.minSupport, ns[..i], n, b);
      var support := GetSupport(cnt, sh, n.row, n.col, b);
      if support as real >= cfg.minSupport {
        var gi, gv := GreedyAction(cnt, q, sh, n, b, support, mc);
        best, votes := CastVote(ev, NeighborSample(cnt, q, sh, n, b), sh.actions, mc, gi, gv, best, votes);
        ev := ev + [NeighborSample(cnt, q, sh, n, b)];
      }
      i := i + 1;
    }
    assert ns[..i] == ns;
  }

  /** The vote counts as the tally the winner is chosen from: an action
      without votes takes no part. */
  function VoteTally(votes: seq<nat>): (t: seq<Option<real>>)
    ensures |t| == |votes|
  {
    seq(|votes|, a requires 0 <= a < |votes| => if votes[a] > 0 then Some(votes[a] as real) else None)
  }

  /** The winner loop of the voting rule: the first action whose vote count
      is strictly larger than every count before it, starting from 0, so an
      action without votes never wins. mi is -1 when nobody voted. */
  method WinnerIndex(votes: seq<nat>) returns (mi: int, maxValue: nat)
    ensures FirstArgMax(VoteTally(votes)).None? ==> mi == -1 && maxValue == 0
    ensures FirstArgMax(VoteTally(votes)).Some? ==>
      mi == FirstArgMax(VoteTally(votes)).value && maxValue == votes[mi] && maxValue > 0
  {
    var t := VoteTally(votes);
    mi, maxValue := -1, 0;
    var i := 0;
    while i < |votes|
      invariant 0 <= i <= |votes|
      invariant FirstArgMax(t[..i]).None? ==> mi == -1 && maxValue == 0
      invariant FirstArgMax(t[..i]).Some? ==>
        mi == FirstArgMax(t[..i]).value && maxValue == votes[mi] && maxValue > 0
    {
      assert t[..i + 1][..i] == t[..i];
      if mi >= 0 {
        assert t[..i + 1][mi] == t[mi];
      }
      if votes[i] > maxValue {
        mi := i;
        maxValue := votes[i];
      }
      i := i + 1;
    }
    assert t[..i] == t;
  }

  /** PerformVoting: every supported neighbour votes for its greedy action;
      the action with strictly the most votes (lowest index on ties) is
      written with the best greedy Q-value among its voters; with no votes
      nothing is written. The result is the Voting rule on the cell's evidence. */
  method PerformVoting(cnt: Table4<nat>, q: Table4<real>, sh: Shape, cfg: Config, r: int, c: int, b: int)
    returns (u: seq<Option<real>>)
    requires WellShaped(cnt, sh) && WellShaped(q, sh) && InTable(sh, r, c, b)
    ensures u == Voting(CellEvidence(cnt, q, sh, cfg, r, c, b), sh.actions, cfg.minConfidence)
  {
    var ns := GetKCyclicNeighbors(sh.rows, sh.cols, r, c, cfg.k);
    var best, votes := NeighborsVoting(cnt, q, sh, cfg, b, ns);
    var mi, maxValue := WinnerIndex(votes);
    if mi >= 0 && maxValue > 0 {
      u := seq(sh.actions, a requires 0 <= a < sh.actions => if a == mi then best[mi] else None);
    } else {
      u := seq(sh.actions, _ => None);
    }
    VotingFromTally(CellEvidence(cnt, q, sh, cfg, r, c, b), sh.actions, cfg.minConfidence, best, votes, mi, u);
  }

  /** Writing the accumulated best value of the tally's winner yields the Voting rule. */
  lemma VotingFromTally(ev: seq<Sample>, actions: nat, mc: real, best: seq<Option<real>>, votes: seq<nat>,
                        mi: int, u: seq<Option<real>>)
    requires WellFormed(ev, actions) && VotingSoFar(ev, actions, mc, best, votes)
    requires FirstArgMax(VoteTally(votes)).None? ==> mi == -1
    requires FirstArgMax(VoteTally(votes)).Some? ==> mi == FirstArgMax(VoteTally(votes)).value
    requires |u| == actions
    requires forall a :: 0 <= a < actions ==> u[a] == if a == mi then best[a] else None
    ensures u == Voting(ev, actions, mc)
  {
    assert Tally(ev, actions, mc) == VoteTally(votes);
    var w := Winner(ev, actions, mc);
    forall a | 0 <= a < actions
      ensures u[a] == Voting(ev, actions, mc)[a]
    {
      if w == Some(a) {
        assert Voting(ev, actions, mc)[a] == Some(MaxOf(VotesFor(ev, actions, mc, a)));
      }
    }
  }

  /** The body of SelfOnlyCounterModule's innermost loop: a low-support cell gets the
      configured rule's update, read from the Q-table as it stands, and the
      update count grows by the number of values written. */
  method VisitCell(cnt: Table4<nat>, sh: Shape, cfg: Config, ghost q0: Table4<real>, ghost keys: seq<Key>,
                   q: Table4<real>, updates: nat, x: Key)
    returns (q': Table4<real>, updates': nat)
    requires WellShaped(cnt, sh) && WellShaped(q0, sh) && WellShaped(q, sh) && KeyIn(sh, x)
    requires forall y :: y in keys ==> KeyIn(sh, y)
    requires SweepState(q, updates) == Sweep(cnt, sh, cfg, q0, keys)
    ensures SweepState(q', updates') == Sweep(cnt, sh, cfg, q0, keys + [x])
  {
    SweepSnoc(cnt, sh, cfg, q0, keys, x);
    q', updates' := q, updates;
    var support := GetSupport(cnt, sh, x.row, x.col, x.boi);
    if (support as real) < cfg.minSupport {
      var u;
      match cfg.rule {
        case UseAveraging => u := PerformAveraging(cnt, q, sh, cfg, x.row, x.col, x.boi);
        case UseTopQ => u := PerformTopQ(cnt, q, sh, cfg, x.row, x.col, x.boi);
        case UseVoting => u := PerformVoting(cnt, q, sh, cfg, x.row, x.col, x.boi);
      }
      assert u == CellUpdate(cnt, q, sh, cfg, x.row, x.col, x.boi);
      q' := WriteCell(q, sh, x, u);
      updates' := updates + Written(u);
    }
  }

  /** The pass has swept exactly the cells keys, in that order, and stands at
      table q with updates values written. */
  ghost predicate Reached(cnt: Table4<nat>, sh: Shape, cfg: Config, q0: Table4<real>, keys: seq<Key>,
                          q: Table4<real>, updates: nat)
    requires WellShaped(cnt, sh) && WellShaped(q0, sh)
  {
    && (forall y :: y in keys ==> KeyIn(sh, y))
    && SweepState(q, updates) == Sweep(cnt, sh, cfg, q0, keys)
  }

  /** The column loop of the pass over row r of ball-owner class b. */
  method ScanRow(cnt: Table4<nat>, sh: Shape, cfg: Config, ghost q0: Table4<real>, ghost before: seq<Key>,
                 q: Table4<real>, updates: nat, b: int, r: int)
    returns (q': Table4<real>, updates': nat)
    requires WellShaped(cnt, sh) && WellShaped(q0, sh)
    requires 0 <= b < BallOwnerStates && 0 <= r < sh.rows
    requires Reached(cnt, sh, cfg, q0, before, q, updates)
    ensures Reached(cnt, sh, cfg, q0, before + RowKeys(b, r, sh.cols), q', updates')
  {
    q', updates' := q, updates;
    var c := 0;
    assert before + RowKeys(b, r, 0) == before;
    while c < sh.cols
      invariant 0 <= c <= sh.cols
      invariant Reached(cnt, sh, cfg, q0, before + RowKeys(b, r, c), q', updates')
    {
      RowKeysIn(sh, before, b, r, c + 1);
      RowKeysSnoc(b, r, c);
      Assoc3(before, RowKeys(b, r, c), [Key(r, c, b)]);
      q', updates' := VisitCell(cnt, sh, cfg, q0, before + RowKeys(b, r, c), q', updates', Key(r, c, b));
      c := c + 1;
    }
  }

  lemma RowKeysIn(sh: Shape, before: seq<Key>, b: int, r: int, c: nat)
    requires 0 <= b < BallOwnerStates && 0 <= r < sh.rows && c <= sh.cols
    requires forall y :: y in before ==> KeyIn(sh, y)
    ensures forall y :: y in before + RowKeys(b, r, c) ==> KeyIn(sh, y)
  {
  }

  /** The row loop of the pass over ball-owner class b. */
  method ScanPlane(cnt: Table4<nat>, sh: Shape, cfg: Config, ghost q0: Table4<real>, ghost before: seq<Key>,
                   q: Table4<real>, updates: nat, b: int)
    returns (q': Table4<real>, updates': nat)
    requires WellShaped(cnt, sh) && WellShaped(q0, sh)
    requires 0 <= b < BallOwnerStates
    requires Reached(cnt, sh, cfg, q0, before, q, updates)
    ensures Reached(cnt, sh, cfg, q0, before + PlaneScan(b, sh.rows, sh.cols), q', updates')
  {
    q', updates' := q, updates;
    var r := 0;
    assert before + PlaneScan(b, 0, sh.cols) == before;
    while r < sh.rows
      invariant 0 <= r <= sh.rows
      invariant Reached(cnt, sh, cfg, q0, before + PlaneScan(b, r, sh.cols), q', updates')
    {
      q', updates' := ScanRow(cnt, sh, cfg, q0, before + PlaneScan(b, r, sh.cols), q', updates', b, r);
      Assoc3(before, PlaneScan(b, r, sh.cols), RowKeys(b, r, sh.cols));
      r := r + 1;
    }
  }

  /** PerformKCyclicNeighborQUpdate as SelfOnlyCounterModule writes it: the update
      count is reset, then ball-owner class, row and column loops visit every
      cell, rewriting the low-support ones in place. It computes exactly the
      pass the Generalisation module defines. */
  method PerformPass(m: CounterModule, q: Table4<real>, cfg: Config) returns (m': CounterModule, q': Table4<real>)
    requires Valid(m) && WellShaped(q, m.shape)
    ensures (m', q') == PerformKCyclicNeighborQUpdate(m, q, cfg)
  {
    var sh := m.shape;
    var updates := 0;
    q' := q;
    var b := 0;
    while b < BallOwnerStates
      invariant 0 <= b <= BallOwnerStates
      invariant Reached(m.counts, sh, cfg, q, ScanOrder(sh, b), q', updates)
    {
      q', updates := ScanPlane(m.counts, sh, cfg, q, ScanOrder(sh, b), q', updates, b);
      assert ScanOrder(sh, b + 1) == ScanOrder(sh, b) + PlaneScan(b, sh.rows, sh.cols);
      b := b + 1;
    }
    m' := m.(dmUpdates := updates);
    assert PerformKCyclicNeighborQUpdate(m, q, cfg) == (m', q');
  }

}
