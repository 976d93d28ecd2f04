/** The self-only visit counter: a dense table of visit counts indexed by
    (row, column, ball-owner index, action), with support and confidence
    derived from it. */
module Counters {
  import opened Grid
  import opened Stats

  /** Number of ball-owner classes: I own the ball, my team owns it, the opponents own it. */
  const BallOwnerStates: nat := 3

  /** The fixed dimensions shared by a counter table and the Q-table it is paired with. */
  datatype Shape = Shape(rows: nat, cols: nat, actions: nat)

  /** A dense table indexed [row][col][ball-owner index][action]. */
  type Table4<T> = seq<seq<seq<seq<T>>>>

  predicate WellShaped<T>(t: Table4<T>, sh: Shape)
  {
    && |t| == sh.rows
    && (forall r :: 0 <= r < |t| ==> |t[r]| == sh.cols)
    && (forall r, c :: 0 <= r < |t| && 0 <= c < |t[r]| ==> |t[r][c]| == BallOwnerStates)
    && (forall r, c, b :: 0 <= r < |t| && 0 <= c < |t[r]| && 0 <= b < |t[r][c]| ==> |t[r][c][b]| == sh.actions)
  }

  /** (r, c, b) addresses one cell and ball-owner class of a table of shape sh. */
  predicate InTable(sh: Shape, r: int, c: int, b: int)
  {
    0 <= r < sh.rows && 0 <= c < sh.cols && 0 <= b < BallOwnerStates
  }

  /** Two tables of the same shape that agree on every (row, col, ball-owner) slice are equal. */
  lemma SameSlices<T>(t1: Table4<T>, t2: Table4<T>, sh: Shape)
    requires WellShaped(t1, sh) && WellShaped(t2, sh)
    requires forall r, c, b :: InTable(sh, r, c, b) ==> t1[r][c][b] == t2[r][c][b]
    ensures t1 == t2
  {
    forall r | 0 <= r < sh.rows
      ensures t1[r] == t2[r]
    {
      forall c | 0 <= c < sh.cols
        ensures t1[r][c] == t2[r][c]
      {
        assert forall b :: 0 <= b < BallOwnerStates ==> t1[r][c][b] == t2[r][c][b];
      }
    }
  }

  /** The parts of an observed state the self-only counter looks at: my
      1-based position and who owns the ball. */
  datatype State = State(me: Cell, amIBallOwner: bool, areWeBallOwner: bool)

  /** The state's position lies on the field (1-based coordinates). */
  predicate OnField(sh: Shape, s: State)
  {
    1 <= s.me.row <= sh.rows && 1 <= s.me.col <= sh.cols
  }

  /** The 3-way ball-owner classification: 0 when I own the ball, otherwise
      1 when my team owns it, otherwise 2. */
  function BallOwnerIndex(s: State): (i: nat)
    ensures i < BallOwnerStates
    ensures i == 0 <==> s.amIBallOwner
    ensures i == 1 <==> !s.amIBallOwner && s.areWeBallOwner
    ensures i == 2 <==> !s.amIBallOwner && !s.areWeBallOwner
  {
    if s.amIBallOwner then 0
    else if s.areWeBallOwner then 1
    else 2
  }

  /** The table entry an observation is counted in: the 1-based position
      shifted to 0-based, then the ball-owner index and the action. */
  predicate IsKeyOf(s: State, ai: int, r: int, c: int, b: int, a: int)
  {
    r == s.me.row - 1 && c == s.me.col - 1 && b == BallOwnerIndex(s) && a == ai
  }

  /** A freshly constructed counter: every count is zero. */
  function Zeros(sh: Shape): (t: Table4<nat>)
    ensures WellShaped(t, sh)
    ensures forall r, c, b, a :: InTable(sh, r, c, b) && 0 <= a < sh.actions ==> t[r][c][b][a] == 0
  {
    seq(sh.rows, _ => seq(sh.cols, _ => seq(BallOwnerStates, _ => seq(sh.actions, _ => 0))))
  }

  function GetCountValue(t: Table4<nat>, sh: Shape, s: State, ai: int): nat
    requires WellShaped(t, sh) && OnField(sh, s) && 0 <= ai < sh.actions
  {
    t[s.me.row - 1][s.me.col - 1][BallOwnerIndex(s)][ai]
  }

  /** Counts one visit: exactly the entry the observation is keyed to grows by
      one, every other entry keeps its count, and the shape is unchanged. */
  function IncrementCountValue(t: Table4<nat>, sh: Shape, s: State, ai: int): (t': Table4<nat>)
    requires WellShaped(t, sh) && OnField(sh, s) && 0 <= ai < sh.actions
    ensures WellShaped(t', sh)
    ensures forall r, c, b, a :: InTable(sh, r, c, b) && 0 <= a < sh.actions ==>
      t'[r][c][b][a] == t[r][c][b][a] + (if IsKeyOf(s, ai, r, c, b, a) then 1 else 0)
  {
    var r, c, b := s.me.row - 1, s.me.col - 1, BallOwnerIndex(s);
    t[r := t[r][c := t[r][c][b := t[r][c][b][ai := t[r][c][b][ai] + 1]]]]
  }

  /** An observed (state, action) pair, as delivered once per simulation step. */
  datatype Observation = Observation(state: State, action: int)

  predicate ValidObservations(sh: Shape, obs: seq<Observation>)
  {
    forall i :: 0 <= i < |obs| ==> OnField(sh, obs[i].state) && 0 <= obs[i].action < sh.actions
  }

  /** Counts every observation in order. */
  function Replay(t: Table4<nat>, sh: Shape, obs: seq<Observation>): (t': Table4<nat>)
    requires WellShaped(t, sh) && ValidObservations(sh, obs)
    ensures WellShaped(t', sh)
  {
    if |obs| == 0 then t
    else
      var last := obs[|obs| - 1];
      IncrementCountValue(Replay(t, sh, obs[..|obs| - 1]), sh, last.state, last.action)
  }

  /** How many of the observations are counted in the same entry as (s, ai). */
  function Occurrences(obs: seq<Observation>, s: State, ai: int): nat
  {
    if |obs| == 0 then 0
    else
      var last := obs[|obs| - 1];
      Occurrences(obs[..|obs| - 1], s, ai)
      + (if IsKeyOf(last.state, last.action, s.me.row - 1, s.me.col - 1, BallOwnerIndex(s), ai) then 1 else 0)
  }

  /** Counts are exact: after replaying a sequence of observations, each entry
      has grown by the number of observations keyed to it, and never shrunk. */
  lemma {:induction false} ReplayCounts(t: Table4<nat>, sh: Shape, obs: seq<Observation>, s: State, ai: int)
    requires WellShaped(t, sh) && ValidObservations(sh, obs)
    requires OnField(sh, s) && 0 <= ai < sh.actions
    ensures GetCountValue(Replay(t, sh, obs), sh, s, ai) == GetCountValue(t, sh, s, ai) + Occurrences(obs, s, ai)
    ensures GetCountValue(t, sh, s, ai) <= GetCountValue(Replay(t, sh, obs), sh, s, ai)
  {
    if |obs| > 0 {
      ReplayCounts(t, sh, obs[..|obs| - 1], s, ai);
    }
  }

  /** Sum of counts accumulated from action 0 upwards. */
  function Sum(xs: seq<nat>): nat
  {
    if |xs| == 0 then 0 else Sum(xs[..|xs| - 1]) + xs[|xs| - 1]
  }

  lemma {:induction false} SumBoundsEach(xs: seq<nat>, i: int)
    requires 0 <= i < |xs|
    ensures xs[i] <= Sum(xs)
  {
    if i < |xs| - 1 {
      SumBoundsEach(xs[..|xs| - 1], i);
    }
  }

  lemma {:induction false} SumZero(xs: seq<nat>)
    ensures Sum(xs) == 0 <==> forall i :: 0 <= i < |xs| ==> xs[i] == 0
  {
    if |xs| > 0 {
      var init := xs[..|xs| - 1];
      SumZero(init);
      assert forall i :: 0 <= i < |init| ==> init[i] == xs[i];
    }
  }

  lemma {:induction false} SumIncrement(xs: seq<nat>, i: int)
    requires 0 <= i < |xs|
    ensures Sum(xs[i := xs[i] + 1]) == Sum(xs) + 1
  {
    var ys := xs[i := xs[i] + 1];
    if i < |xs| - 1 {
      assert ys[..|ys| - 1] == xs[..|xs| - 1][i := xs[i] + 1];
      SumIncrement(xs[..|xs| - 1], i);
    } else {
      assert ys[..|ys| - 1] == xs[..|xs| - 1];
    }
  }

  /** The support of a cell and ball-owner class: its total number of visits over all actions. */
  function Support(t: Table4<nat>, sh: Shape, r: int, c: int, b: int): nat
    requires WellShaped(t, sh) && InTable(sh, r, c, b)
  {
    Sum(t[r][c][b])
  }

  /** The support loop of SelfOnlyCounterModule: accumulates the counts of every action.
      The result is the cell's support; it bounds every single count and is
      zero exactly when the cell was never visited. */
  method GetSupport(t: Table4<nat>, sh: Shape, r: int, c: int, b: int) returns (sum: nat)
    requires WellShaped(t, sh) && InTable(sh, r, c, b)
    ensures sum == Support(t, sh, r, c, b)
    ensures forall a :: 0 <= a < sh.actions ==> t[r][c][b][a] <= sum
    ensures sum == 0 <==> forall a :: 0 <= a < sh.actions ==> t[r][c][b][a] == 0
  {
    var counts := t[r][c][b];
    sum := 0;
    var i := 0;
    while i < sh.actions
      invariant 0 <= i <= sh.actions
      invariant sum == Sum(counts[..i])
    {
      assert counts[..i + 1][..i] == counts[..i];
      sum := sum + counts[i];
      i := i + 1;
    }
    assert counts[..i] == counts;
    forall a | 0 <= a < sh.actions
      ensures counts[a] <= sum
    {
      SumBoundsEach(counts, a);
    }
    SumZero(counts);
  }

  /** Counting a visit raises the support of the visited cell and ball-owner
      class by one and leaves every other support unchanged. */
  lemma SupportAfterIncrement(t: Table4<nat>, sh: Shape, s: State, ai: int, r: int, c: int, b: int)
    requires WellShaped(t, sh) && OnField(sh, s) && 0 <= ai < sh.actions
    requires InTable(sh, r, c, b)
    ensures Support(IncrementCountValue(t, sh, s, ai), sh, r, c, b)
      == Support(t, sh, r, c, b) + (if IsKeyOf(s, ai, r, c, b, ai) then 1 else 0)
  {
    var t' := IncrementCountValue(t, sh, s, ai);
    if IsKeyOf(s, ai, r, c, b, ai) {
      assert t'[r][c][b] == t[r][c][b][ai := t[r][c][b][ai] + 1];
      SumIncrement(t[r][c][b], ai);
    } else {
      assert t'[r][c][b] == t[r][c][b];
    }
  }

  /** The share of a cell's visits that chose action ai. Undefined when the
      cell was never visited, as in SelfOnlyCounterModule, which divides unguarded. */
  function ConfidenceOf(counts: seq<nat>, ai: int): (p: real)
    requires 0 <= ai < |counts| && Sum(counts) > 0
    ensures 0.0 <= p <= 1.0
    ensures p == 0.0 <==> counts[ai] == 0
    ensures p == 1.0 <==> counts[ai] == Sum(counts)
    ensures p * Sum(counts) as real == counts[ai] as real
  {
    SumBoundsEach(counts, ai);
    Ratio(counts[ai], Sum(counts));
    counts[ai] as real / Sum(counts) as real
  }

  lemma Ratio(x: nat, s: nat)
    requires 0 < s && x <= s
    ensures 0.0 <= x as real / s as real <= 1.0
    ensures x as real / s as real == 0.0 <==> x == 0
    ensures x as real / s as real == 1.0 <==> x == s
    ensures (x as real / s as real) * s as real == x as real
  {
    var p := x as real / s as real;
    assert p * s as real == x as real;
  }

  function GetActionConfidence(t: Table4<nat>, sh: Shape, r: int, c: int, b: int, ai: int): real
    requires WellShaped(t, sh) && InTable(sh, r, c, b) && 0 <= ai < sh.actions
    requires Support(t, sh, r, c, b) > 0
  {
    ConfidenceOf(t[r][c][b], ai)
  }

  /** The confidences of all actions of a visited cell add up to one. */
  lemma ConfidencesSumToOne(counts: seq<nat>)
    requires Sum(counts) > 0
    ensures RealSum(seq(|counts|, a requires 0 <= a < |counts| => ConfidenceOf(counts, a))) == 1.0
  {
    var ps := seq(|counts|, a requires 0 <= a < |counts| => ConfidenceOf(counts, a));
    var n := Sum(counts) as real;
    ConfidencesScaled(counts, ps, n);
    UnitFactor(RealSum(ps), n);
  }

  lemma ConfidencesScaled(counts: seq<nat>, ps: seq<real>, n: real)
    requires Sum(counts) > 0 && n == Sum(counts) as real && |ps| == |counts|
    requires forall i :: 0 <= i < |ps| ==> ps[i] == ConfidenceOf(counts, i)
    ensures RealSum(ps) * n == n
  {
    forall i | 0 <= i < |ps|
      ensures ps[i] * n == counts[i] as real
    {
      assert ps[i] == ConfidenceOf(counts, i);
    }
    ScaledSum(ps, counts, n, n);
  }

  /** When every ps[i] is counts[i] / n, the ps sum to the counts' sum over n. */
  lemma {:induction false} ScaledSum(ps: seq<real>, counts: seq<nat>, n: real, total: real)
    requires |ps| == |counts| && total == Sum(counts) as real
    requires forall i :: 0 <= i < |ps| ==> ps[i] * n == counts[i] as real
    ensures RealSum(ps) * n == total
  {
    if |ps| > 0 {
      var k := |ps| - 1;
      ScaledSum(ps[..k], counts[..k], n, Sum(counts[..k]) as real);
      assert (RealSum(ps[..k]) + ps[k]) * n == RealSum(ps[..k]) * n + ps[k] * n;
    }
  }

  lemma UnitFactor(x: real, n: real)
    requires n > 0.0 && x * n == n
    ensures x == 1.0
  {
  }

}
