/** Aggregates over sequences of real Q-values: sum, extremes, mean, and the
    "first strict maximum" scan SelfOnlyCounterModule uses for greedy choices. */
module Stats {
  import opened Options

  /** Sum accumulated from the front, as SelfOnlyCounterModule's `+=` loops do. */
  function RealSum(xs: seq<real>): real
  {
    if |xs| == 0 then 0.0 else RealSum(xs[..|xs| - 1]) + xs[|xs| - 1]
  }

  /** The largest element. */
  function MaxOf(xs: seq<real>): (m: real)
    requires |xs| > 0
    ensures m in xs
    ensures forall i :: 0 <= i < |xs| ==> xs[i] <= m
  {
    if |xs| == 1 then xs[0]
    else
      var init := xs[..|xs| - 1];
      var p := MaxOf(init);
      assert forall i :: 0 <= i < |init| ==> init[i] == xs[i];
      if xs[|xs| - 1] > p then xs[|xs| - 1] else p
  }

  /** The smallest element. */
  function MinOf(xs: seq<real>): (m: real)
    requires |xs| > 0
    ensures m in xs
    ensures forall i :: 0 <= i < |xs| ==> m <= xs[i]
  {
    if |xs| == 1 then xs[0]
    else
      var init := xs[..|xs| - 1];
      var p := MinOf(init);
      assert forall i :: 0 <= i < |init| ==> init[i] == xs[i];
      if xs[|xs| - 1] < p then xs[|xs| - 1] else p
  }

  /** A sum of values that all lie in [lo, hi] lies in [n * lo, n * hi]. */
  lemma {:induction false} RealSumBounds(xs: seq<real>, lo: real, hi: real)
    requires forall i :: 0 <= i < |xs| ==> lo <= xs[i] <= hi
    ensures |xs| as real * lo <= RealSum(xs) <= |xs| as real * hi
  {
    if |xs| > 0 {
      var init := xs[..|xs| - 1];
      assert forall i :: 0 <= i < |init| ==> init[i] == xs[i];
      RealSumBounds(init, lo, hi);
      assert |xs| as real * lo == |init| as real * lo + lo;
      assert |xs| as real * hi == |init| as real * hi + hi;
    }
  }

  /** The arithmetic mean. */
  function Mean(xs: seq<real>): real
    requires |xs| > 0
  {
    RealSum(xs) / (|xs| as real)
  }

  /** The mean lies between the smallest and the largest element, and |xs| copies of it make up the sum. */
  lemma MeanBounds(xs: seq<real>)
    requires |xs| > 0
    ensures MinOf(xs) <= Mean(xs) <= MaxOf(xs)
    ensures RealSum(xs) == (|xs| as real) * Mean(xs)
  {
    var lo, hi := MinOf(xs), MaxOf(xs);
    RealSumBounds(xs, lo, hi);
    MeanWithin(xs, lo, hi);
  }

  lemma MeanWithin(xs: seq<real>, lo: real, hi: real)
    requires |xs| > 0
    requires |xs| as real * lo <= RealSum(xs) <= |xs| as real * hi
    ensures lo <= Mean(xs) <= hi
    ensures RealSum(xs) == (|xs| as real) * Mean(xs)
  {
    Quotient(RealSum(xs), |xs| as real, lo, hi);
  }

  lemma Quotient(s: real, n: real, lo: real, hi: real)
    requires n > 0.0
    requires n * lo <= s <= n * hi
    ensures lo <= s / n <= hi
    ensures s == n * (s / n)
  {
  }

  /** Scans left to right and keeps the first index whose value is strictly
      larger than every value before it; `None` entries are skipped. This is
      the greedy-choice loop of SelfOnlyCounterModule: ties go to the lowest index. */
  function FirstArgMax(xs: seq<Option<real>>): (r: Option<nat>)
    ensures r.None? <==> forall i :: 0 <= i < |xs| ==> xs[i].None?
    ensures r.Some? ==> r.value < |xs| && xs[r.value].Some?
    ensures r.Some? ==> forall i :: 0 <= i < |xs| && xs[i].Some? ==> xs[i].value <= xs[r.value].value
    ensures r.Some? ==> forall i :: 0 <= i < r.value && xs[i].Some? ==> xs[i].value < xs[r.value].value
  {
    if |xs| == 0 then None
    else
      var init := xs[..|xs| - 1];
      var p := FirstArgMax(init);
      assert forall i :: 0 <= i < |init| ==> init[i] == xs[i];
      var last := xs[|xs| - 1];
      if last.Some? && (p.None? || last.value > xs[p.value].value) then Some(|xs| - 1) else p
  }

  /** Adding one value at the end adds it to the sum. */
  lemma RealSumSnoc(xs: seq<real>, v: real)
    ensures RealSum(xs + [v]) == RealSum(xs) + v
  {
    assert (xs + [v])[..|xs|] == xs;
  }

  /** Adding one value at the end replaces the maximum only when it is strictly larger. */
  lemma MaxOfSnoc(xs: seq<real>, v: real)
    requires |xs| > 0
    ensures MaxOf(xs + [v]) == if v > MaxOf(xs) then v else MaxOf(xs)
  {
    assert (xs + [v])[..|xs|] == xs;
  }

  /** One more entry becomes the arg-max exactly when it is present and
      strictly larger than the current maximum. */
  lemma FirstArgMaxSnoc(xs: seq<Option<real>>, v: Option<real>)
    ensures FirstArgMax(xs + [v])
      == if v.Some? && (FirstArgMax(xs).None? || v.value > xs[FirstArgMax(xs).value].value)
         then Some(|xs|) else FirstArgMax(xs)
  {
    assert (xs + [v])[..|xs|] == xs;
  }

  /** A running first-strict-maximum scan of xs holds index gi and value gv:
      -1 and nothing while no value has been seen, the first largest value otherwise. */
  predicate Tracks(xs: seq<Option<real>>, gi: int, gv: Option<real>)
  {
    && (FirstArgMax(xs).None? ==> gi == -1 && gv.None?)
    && (FirstArgMax(xs).Some? ==> gi == FirstArgMax(xs).value && gv == xs[gi])
  }

  /** One more step of the scan: a present value strictly above the running
      one (or the first present value) takes over. */
  lemma TracksSnoc(xs: seq<Option<real>>, v: Option<real>, gi: int, gv: Option<real>)
    requires Tracks(xs, gi, gv)
    ensures var takes := v.Some? && (gv.None? || v.value > gv.value);
      Tracks(xs + [v], if takes then |xs| else gi, if takes then v else gv)
  {
    FirstArgMaxSnoc(xs, v);
    if gi >= 0 {
      assert (xs + [v])[gi] == xs[gi];
    }
  }
}
