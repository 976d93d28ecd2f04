/** The k-cyclic neighbour Q-update: one pass over the whole table that
    overwrites the Q-values of poorly visited cells from the evidence of
    well-supported cells around them. */
module Generalisation {
  import opened Options
  import opened Grid
  import opened Seqs
  import opened Counters
  import opened Rings
  import opened Aggregation

  /** The aggregation rule the pass uses. */
  datatype MethodType = UseAveraging | UseTopQ | UseVoting

  /** The pass's parameters: the support below which a cell is rewritten (and
      at or above which a neighbour is trusted), the confidence an action of a
      neighbour needs, the largest ring radius, and the rule. */
  datatype Config = Config(minSupport: real, minConfidence: real, k: int, rule: MethodType)

  /** The self-only counter module: its fixed shape, its counter table, and the
      number of Q-values written by the last pass. */
  datatype CounterModule = CounterModule(shape: Shape, counts: Table4<nat>, dmUpdates: nat)

  predicate Valid(m: CounterModule)
  {
    WellShaped(m.counts, m.shape)
  }

  /** A newly constructed module: an all-zero table and no updates. */
  function NewCounterModule(rows: nat, cols: nat, actions: nat): (m: CounterModule)
    ensures Valid(m) && m.shape == Shape(rows, cols, actions) && m.dmUpdates == 0
    ensures forall r, c, b :: InTable(m.shape, r, c, b) ==> Support(m.counts, m.shape, r, c, b) == 0
  {
    var sh := Shape(rows, cols, actions);
    var t := Zeros(sh);
    forall r, c, b | InTable(sh, r, c, b)
      ensures Support(t, sh, r, c, b) == 0
    {
      SumZero(t[r][c][b]);
    }
    CounterModule(sh, t, 0)
  }

  /** The cell has enough direct experience: it is never rewritten, and its
      Q-values may serve as evidence. */
  predicate Supported(cnt: Table4<nat>, sh: Shape, minSupport: real, r: int, c: int, b: int)
    requires WellShaped(cnt, sh) && InTable(sh, r, c, b)
  {
    Support(cnt, sh, r, c, b) as real >= minSupport
  }

  /** What a neighbour cell contributes for ball-owner class b. */
  function NeighborSample(cnt: Table4<nat>, q: Table4<real>, sh: Shape, n: Cell, b: int): Sample
    requires WellShaped(cnt, sh) && WellShaped(q, sh) && InTable(sh, n.row, n.col, b)
  {
    Sample(cnt[n.row][n.col][b], q[n.row][n.col][b])
  }

  /** The samples of the supported cells among ns, in order. */
  function Evidence(cnt: Table4<nat>, q: Table4<real>, sh: Shape, minSupport: real, ns: seq<Cell>, b: int): (ev: seq<Sample>)
    requires WellShaped(cnt, sh) && WellShaped(q, sh) && 0 <= b < BallOwnerStates
    requires forall n :: n in ns ==> InGrid(n, sh.rows, sh.cols)
    ensures WellFormed(ev, sh.actions)
  {
    if |ns| == 0 then []
    else
      var n := ns[|ns| - 1];
      assert n in ns;
      assert InGrid(n, sh.rows, sh.cols);
      Evidence(cnt, q, sh, minSupport, ns[..|ns| - 1], b)
      + (if Supported(cnt, sh, minSupport, n.row, n.col, b) then [NeighborSample(cnt, q, sh, n, b)] else [])
  }

  /** The evidence holds exactly the samples of the supported cells among ns. */
  lemma {:induction false} EvidenceMembers(cnt: Table4<nat>, q: Table4<real>, sh: Shape, minSupport: real, ns: seq<Cell>, b: int, s: Sample)
    requires WellShaped(cnt, sh) && WellShaped(q, sh) && 0 <= b < BallOwnerStates
    requires forall n :: n in ns ==> InGrid(n, sh.rows, sh.cols)
    ensures s in Evidence(cnt, q, sh, minSupport, ns, b)
      <==> exists n :: n in ns && Supported(cnt, sh, minSupport, n.row, n.col, b) && s == NeighborSample(cnt, q, sh, n, b)
  {
    if |ns| > 0 {
      var init := ns[..|ns| - 1];
      var last := ns[|ns| - 1];
      EvidenceMembers(cnt, q, sh, minSupport, init, b, s);
      assert forall n :: n in ns <==> n in init || n == last;
    }
  }

  /** The values the configured rule writes into cell (r, c, b): per action,
      `Some` value to write or `None` to leave it. */
  function CellUpdate(cnt: Table4<nat>, q: Table4<real>, sh: Shape, cfg: Config, r: int, c: int, b: int): (u: seq<Option<real>>)
    requires WellShaped(cnt, sh) && WellShaped(q, sh) && InTable(sh, r, c, b)
    ensures |u| == sh.actions
  {
    var ev := Evidence(cnt, q, sh, cfg.minSupport, KCyclicNeighbors(sh.rows, sh.cols, r, c, cfg.k), b);
    match cfg.rule
    case UseAveraging => Averaging(ev, sh.actions, cfg.minConfidence)
    case UseTopQ => TopQ(ev, sh.actions, cfg.minConfidence)
    case UseVoting => Voting(ev, sh.actions, cfg.minConfidence)
  }

  /** Two Q-tables that agree on every supported cell. */
  ghost predicate AgreeOnSupported(cnt: Table4<nat>, sh: Shape, minSupport: real, q1: Table4<real>, q2: Table4<real>)
    requires WellShaped(cnt, sh) && WellShaped(q1, sh) && WellShaped(q2, sh)
  {
    forall r, c, b :: InTable(sh, r, c, b) && Supported(cnt, sh, minSupport, r, c, b) ==> q1[r][c][b] == q2[r][c][b]
  }

  lemma {:induction false} EvidenceFrame(cnt: Table4<nat>, q1: Table4<real>, q2: Table4<real>, sh: Shape, minSupport: real, ns: seq<Cell>, b: int)
    requires WellShaped(cnt, sh) && WellShaped(q1, sh) && WellShaped(q2, sh) && 0 <= b < BallOwnerStates
    requires forall n :: n in ns ==> InGrid(n, sh.rows, sh.cols)
    requires AgreeOnSupported(cnt, sh, minSupport, q1, q2)
    ensures Evidence(cnt, q1, sh, minSupport, ns, b) == Evidence(cnt, q2, sh, minSupport, ns, b)
  {
    if |ns| > 0 {
      var n := ns[|ns| - 1];
      assert n in ns;
      EvidenceFrame(cnt, q1, q2, sh, minSupport, ns[..|ns| - 1], b);
      if Supported(cnt, sh, minSupport, n.row, n.col, b) {
        assert NeighborSample(cnt, q1, sh, n, b) == NeighborSample(cnt, q2, sh, n, b);
      }
    }
  }

  /** The update of a cell reads the Q-table only at supported cells: two
      Q-tables that agree there yield the same update. */
  lemma CellUpdateFrame(cnt: Table4<nat>, q1: Table4<real>, q2: Table4<real>, sh: Shape, cfg: Config, r: int, c: int, b: int)
    requires WellShaped(cnt, sh) && WellShaped(q1, sh) && WellShaped(q2, sh) && InTable(sh, r, c, b)
    requires AgreeOnSupported(cnt, sh, cfg.minSupport, q1, q2)
    ensures CellUpdate(cnt, q1, sh, cfg, r, c, b) == CellUpdate(cnt, q2, sh, cfg, r, c, b)
  {
    EvidenceFrame(cnt, q1, q2, sh, cfg.minSupport, KCyclicNeighbors(sh.rows, sh.cols, r, c, cfg.k), b);
  }

  /** With Averaging or TopQ, action a of cell (r, c, b) is written exactly
      when some ring neighbour within radius k is supported and confident
      about a. */
  lemma PerActionWrites(cnt: Table4<nat>, q: Table4<real>, sh: Shape, cfg: Config, r: int, c: int, b: int, a: int)
    requires WellShaped(cnt, sh) && WellShaped(q, sh) && InTable(sh, r, c, b) && 0 <= a < sh.actions
    requires cfg.rule != UseVoting
    ensures CellUpdate(cnt, q, sh, cfg, r, c, b)[a].Some?
      <==> exists n :: && n in KCyclicNeighbors(sh.rows, sh.cols, r, c, cfg.k)
                       && Supported(cnt, sh, cfg.minSupport, n.row, n.col, b)
                       && Confident(NeighborSample(cnt, q, sh, n, b), a, cfg.minConfidence)
  {
    var ns := KCyclicNeighbors(sh.rows, sh.cols, r, c, cfg.k);
    var ev := Evidence(cnt, q, sh, cfg.minSupport, ns, b);
    if cfg.rule == UseAveraging {
      AveragingWrites(ev, sh.actions, cfg.minConfidence, a);
    } else {
      TopQWrites(ev, sh.actions, cfg.minConfidence, a);
    }
    if exists i :: 0 <= i < |ev| && Confident(ev[i], a, cfg.minConfidence) {
      var i :| 0 <= i < |ev| && Confident(ev[i], a, cfg.minConfidence);
      EvidenceMembers(cnt, q, sh, cfg.minSupport, ns, b, ev[i]);
    }
    forall n | n in ns && Supported(cnt, sh, cfg.minSupport, n.row, n.col, b)
      ensures NeighborSample(cnt, q, sh, n, b) in ev
    {
      EvidenceMembers(cnt, q, sh, cfg.minSupport, ns, b, NeighborSample(cnt, q, sh, n, b));
    }
  }

  /** Applies an update to one action row: written actions take their new value. */
  function Merge(row: seq<real>, u: seq<Option<real>>): (row': seq<real>)
    requires |row| == |u|
    ensures |row'| == |row|
    ensures forall a :: 0 <= a < |row| ==> row'[a] == (if u[a].Some? then u[a].value else row[a])
  {
    seq(|row|, a requires 0 <= a < |row| => if u[a].Some? then u[a].value else row[a])
  }

  /** The number of actions an update writes. */
  function Written(u: seq<Option<real>>): nat
  {
    if |u| == 0 then 0 else Written(u[..|u| - 1]) + (if u[|u| - 1].Some? then 1 else 0)
  }

  /** A cell and ball-owner class of the tables. */
  datatype Key = Key(row: int, col: int, boi: int)

  predicate KeyIn(sh: Shape, x: Key)
  {
    InTable(sh, x.row, x.col, x.boi)
  }

  /** Writes an update into one cell and ball-owner class of the Q-table. */
  function WriteCell(q: Table4<real>, sh: Shape, x: Key, u: seq<Option<real>>): (q': Table4<real>)
    requires WellShaped(q, sh) && KeyIn(sh, x) && |u| == sh.actions
    ensures WellShaped(q', sh)
    ensures forall r, c, b :: InTable(sh, r, c, b) ==>
      q'[r][c][b] == (if Key(r, c, b) == x then Merge(q[r][c][b], u) else q[r][c][b])
  {
    var r, c, b := x.row, x.col, x.boi;
    q[r := q[r][c := q[r][c][b := Merge(q[r][c][b], u)]]]
  }

  /** The cell lacks direct experience, so the pass rewrites it. */
  predicate Low(cnt: Table4<nat>, sh: Shape, cfg: Config, x: Key)
    requires WellShaped(cnt, sh) && KeyIn(sh, x)
  {
    !Supported(cnt, sh, cfg.minSupport, x.row, x.col, x.boi)
  }

  /** The state a pass carries from cell to cell: the Q-table as written so
      far and the number of Q-values written. */
  datatype SweepState = SweepState(q: Table4<real>, updates: nat)

  /** The pass as SelfOnlyCounterModule runs it: cells in the given order, each low
      cell updated from the Q-table as it stands at that moment. */
  function Sweep(cnt: Table4<nat>, sh: Shape, cfg: Config, q: Table4<real>, keys: seq<Key>): (st: SweepState)
    requires WellShaped(cnt, sh) && WellShaped(q, sh)
    requires forall x :: x in keys ==> KeyIn(sh, x)
    ensures WellShaped(st.q, sh)
  {
    if |keys| == 0 then SweepState(q, 0)
    else
      var st := Sweep(cnt, sh, cfg, q, keys[..|keys| - 1]);
      var x := keys[|keys| - 1];
      if Low(cnt, sh, cfg, x) then
        var u := CellUpdate(cnt, st.q, sh, cfg, x.row, x.col, x.boi);
        SweepState(WriteCell(st.q, sh, x, u), st.updates + Written(u))
      else st
  }

  /** The number of values a cell's update writes when computed from q. */
  function CellWrites(cnt: Table4<nat>, sh: Shape, cfg: Config, q: Table4<real>, x: Key): nat
    requires WellShaped(cnt, sh) && WellShaped(q, sh) && KeyIn(sh, x)
  {
    if Low(cnt, sh, cfg, x) then Written(CellUpdate(cnt, q, sh, cfg, x.row, x.col, x.boi)) else 0
  }

  /** The total number of values the updates of the given cells write, all computed from q. */
  function Writes(cnt: Table4<nat>, sh: Shape, cfg: Config, q: Table4<real>, keys: seq<Key>): nat
    requires WellShaped(cnt, sh) && WellShaped(q, sh)
    requires forall x :: x in keys ==> KeyIn(sh, x)
  {
    if |keys| == 0 then 0
    else Writes(cnt, sh, cfg, q, keys[..|keys| - 1]) + CellWrites(cnt, sh, cfg, q, keys[|keys| - 1])
  }

  /** Writes never feed later reads: sweeping distinct cells in order gives
      every swept low cell the update computed from table as it stood before the pass,
      leaves every other cell alone, and counts the values written. */
  lemma {:induction false} SweepReadsOriginal(cnt: Table4<nat>, sh: Shape, cfg: Config, q: Table4<real>, keys: seq<Key>)
    requires WellShaped(cnt, sh) && WellShaped(q, sh)
    requires forall x :: x in keys ==> KeyIn(sh, x)
    requires Distinct(keys)
    ensures var st := Sweep(cnt, sh, cfg, q, keys);
      forall r, c, b :: InTable(sh, r, c, b) ==>
        st.q[r][c][b] == (if Key(r, c, b) in keys && Low(cnt, sh, cfg, Key(r, c, b))
                          then Merge(q[r][c][b], CellUpdate(cnt, q, sh, cfg, r, c, b))
                          else q[r][c][b])
    ensures Sweep(cnt, sh, cfg, q, keys).updates == Writes(cnt, sh, cfg, q, keys)
  {
    if |keys| > 0 {
      var init := keys[..|keys| - 1];
      var x := keys[|keys| - 1];
      assert forall y :: y in keys <==> y in init || y == x;
      assert Distinct(init);
      assert x !in init;
      SweepReadsOriginal(cnt, sh, cfg, q, init);
      var st := Sweep(cnt, sh, cfg, q, init);
      if Low(cnt, sh, cfg, x) {
        assert AgreeOnSupported(cnt, sh, cfg.minSupport, q, st.q);
        CellUpdateFrame(cnt, q, st.q, sh, cfg, x.row, x.col, x.boi);
      }
    }
  }

  /** The cells of row r of ball-owner class b, columns 0 .. c - 1. */
  function RowKeys(b: int, r: int, c: nat): (s: seq<Key>)
    ensures |s| == c && forall i :: 0 <= i < c ==> s[i] == Key(r, i, b)
  {
    seq(c, i => Key(r, i, b))
  }

  lemma RowKeysSnoc(b: int, r: int, c: nat)
    ensures RowKeys(b, r, c + 1) == RowKeys(b, r, c) + [Key(r, c, b)]
  {
  }

  /** Cells in SelfOnlyCounterModule's scan order for one ball-owner class: row by row, column by column. */
  function PlaneScan(b: int, rows: nat, cols: nat): seq<Key>
  {
    if rows == 0 then []
    else PlaneScan(b, rows - 1, cols) + RowKeys(b, rows - 1, cols)
  }

  /** SelfOnlyCounterModule's scan order: ball-owner class, then row, then column. */
  function ScanOrder(sh: Shape, classes: nat): (s: seq<Key>)
    ensures forall x :: x in s ==> 0 <= x.boi < classes && 0 <= x.row < sh.rows && 0 <= x.col < sh.cols
  {
    if classes == 0 then []
    else
      PlaneScanFacts(classes - 1, sh.rows, sh.cols);
      ScanOrder(sh, classes - 1) + PlaneScan(classes - 1, sh.rows, sh.cols)
  }

  lemma {:induction false} PlaneScanFacts(b: int, rows: nat, cols: nat)
    ensures forall x :: x in PlaneScan(b, rows, cols) <==> x.boi == b && 0 <= x.row < rows && 0 <= x.col < cols
    ensures Distinct(PlaneScan(b, rows, cols))
  {
    if rows > 0 {
      PlaneScanFacts(b, rows - 1, cols);
      var last := RowKeys(b, rows - 1, cols);
      assert forall x :: x in last <==> x.boi == b && x.row == rows - 1 && 0 <= x.col < cols by {
        forall x: Key | x.boi == b && x.row == rows - 1 && 0 <= x.col < cols
          ensures x in last
        {
          assert last[x.col] == x;
        }
      }
      DistinctConcat(PlaneScan(b, rows - 1, cols), last);
    }
  }

  /** The scan visits every cell and ball-owner class of the table exactly once. */
  lemma {:induction false} ScanOrderFacts(sh: Shape, classes: nat)
    ensures forall x :: (x in ScanOrder(sh, classes)
                         <==> 0 <= x.boi < classes && 0 <= x.row < sh.rows && 0 <= x.col < sh.cols)
    ensures Distinct(ScanOrder(sh, classes))
  {
    if classes > 0 {
      ScanOrderFacts(sh, classes - 1);
      PlaneScanFacts(classes - 1, sh.rows, sh.cols);
      DistinctConcat(ScanOrder(sh, classes - 1), PlaneScan(classes - 1, sh.rows, sh.cols));
    }
  }

  /** Sweeping the whole table in SelfOnlyCounterModule's scan order. */
  lemma FullSweep(cnt: Table4<nat>, sh: Shape, cfg: Config, q: Table4<real>)
    requires WellShaped(cnt, sh) && WellShaped(q, sh)
    ensures var keys := ScanOrder(sh, BallOwnerStates);
      (forall x :: x in keys ==> KeyIn(sh, x))
      && var st := Sweep(cnt, sh, cfg, q, keys);
      && (forall r, c, b :: InTable(sh, r, c, b) && Supported(cnt, sh, cfg.minSupport, r, c, b) ==>
            st.q[r][c][b] == q[r][c][b])
      && (forall r, c, b :: InTable(sh, r, c, b) && !Supported(cnt, sh, cfg.minSupport, r, c, b) ==>
            st.q[r][c][b] == Merge(q[r][c][b], CellUpdate(cnt, q, sh, cfg, r, c, b)))
      && st.updates == Writes(cnt, sh, cfg, q, keys)
  {
    ScanOrderFacts(sh, BallOwnerStates);
    SweepEveryCell(cnt, sh, cfg, q, ScanOrder(sh, BallOwnerStates));
  }

  /** Sweeping every cell of the table once, in whatever order, leaves the
      supported cells alone and gives every low cell its update read from
      the table before the pass. */
  lemma SweepEveryCell(cnt: Table4<nat>, sh: Shape, cfg: Config, q: Table4<real>, keys: seq<Key>)
    requires WellShaped(cnt, sh) && WellShaped(q, sh)
    requires forall x :: x in keys <==> KeyIn(sh, x)
    requires Distinct(keys)
    ensures var st := Sweep(cnt, sh, cfg, q, keys);
      && (forall r, c, b :: InTable(sh, r, c, b) && Supported(cnt, sh, cfg.minSupport, r, c, b) ==>
            st.q[r][c][b] == q[r][c][b])
      && (forall r, c, b :: InTable(sh, r, c, b) && !Supported(cnt, sh, cfg.minSupport, r, c, b) ==>
            st.q[r][c][b] == Merge(q[r][c][b], CellUpdate(cnt, q, sh, cfg, r, c, b)))
      && st.updates == Writes(cnt, sh, cfg, q, keys)
  {
    SweepReadsOriginal(cnt, sh, cfg, q, keys);
    var st := Sweep(cnt, sh, cfg, q, keys);
    forall r, c, b | InTable(sh, r, c, b)
      ensures st.q[r][c][b] == if Supported(cnt, sh, cfg.minSupport, r, c, b) then q[r][c][b]
                               else Merge(q[r][c][b], CellUpdate(cnt, q, sh, cfg, r, c, b))
    {
      var x := Key(r, c, b);
      assert KeyIn(sh, x);
      assert Low(cnt, sh, cfg, x) == !Supported(cnt, sh, cfg.minSupport, r, c, b);
    }
  }

  /** PerformKCyclicNeighborQUpdate: resets the update count, then sweeps all
      cells in SelfOnlyCounterModule's order. The counter table is untouched; every
      supported cell keeps its Q-values; every low cell receives the update
      computed from the table as it was before the pass; and the update count
      is the number of values written. NumberOfDMUpdates reads that count. */
  function PerformKCyclicNeighborQUpdate(m: CounterModule, q: Table4<real>, cfg: Config): (res: (CounterModule, Table4<real>))
    requires Valid(m) && WellShaped(q, m.shape)
    ensures res.0.shape == m.shape && res.0.counts == m.counts
    ensures WellShaped(res.1, m.shape)
    ensures forall r, c, b :: InTable(m.shape, r, c, b) && Supported(m.counts, m.shape, cfg.minSupport, r, c, b) ==>
      res.1[r][c][b] == q[r][c][b]
    ensures forall r, c, b :: InTable(m.shape, r, c, b) && !Supported(m.counts, m.shape, cfg.minSupport, r, c, b) ==>
      res.1[r][c][b] == Merge(q[r][c][b], CellUpdate(m.counts, q, m.shape, cfg, r, c, b))
    ensures res.0.dmUpdates == Writes(m.counts, m.shape, cfg, q, ScanOrder(m.shape, BallOwnerStates))
  {
    FullSweep(m.counts, m.shape, cfg, q);
    var st := Sweep(m.counts, m.shape, cfg, q, ScanOrder(m.shape, BallOwnerStates));
    (m.(dmUpdates := st.updates), st.q)
  }

  function NumberOfDMUpdates(m: CounterModule): nat
  {
    m.dmUpdates
  }

  lemma {:induction false} WritesConcat(cnt: Table4<nat>, sh: Shape, cfg: Config, q: Table4<real>, a: seq<Key>, b: seq<Key>)
    requires WellShaped(cnt, sh) && WellShaped(q, sh)
    requires forall x :: x in a + b ==> KeyIn(sh, x)
    ensures Writes(cnt, sh, cfg, q, a + b) == Writes(cnt, sh, cfg, q, a) + Writes(cnt, sh, cfg, q, b)
  {
    if |b| > 0 {
      assert (a + b)[..|a + b| - 1] == a + b[..|b| - 1];
      WritesConcat(cnt, sh, cfg, q, a, b[..|b| - 1]);
    } else {
      assert a + b == a;
    }
  }

  /** The write count does not depend on the order the cells are visited in. */
  lemma {:induction false} WritesAnyOrder(cnt: Table4<nat>, sh: Shape, cfg: Config, q: Table4<real>, keys1: seq<Key>, keys2: seq<Key>)
    requires WellShaped(cnt, sh) && WellShaped(q, sh)
    requires forall x :: x in keys1 ==> KeyIn(sh, x)
    requires Distinct(keys1) && Distinct(keys2)
    requires forall x :: x in keys1 <==> x in keys2
    ensures Writes(cnt, sh, cfg, q, keys1) == Writes(cnt, sh, cfg, q, keys2)
    decreases |keys1|
  {
    if |keys1| == 0 {
      if |keys2| > 0 {
        ElementIn(keys2, 0);
        assert false;
      }
    } else {
      var init := keys1[..|keys1| - 1];
      var x := keys1[|keys1| - 1];
      RemoveLast(keys1);
      assert x in keys2;
      var j :| 0 <= j < |keys2| && keys2[j] == x;
      RemoveAt(keys2, j);
      var before, after := keys2[..j], keys2[j + 1..];
      var rest := before + after;
      forall y
        ensures y in init <==> y in rest
      {
        assert y in keys1 <==> y in keys2;
      }
      WritesAnyOrder(cnt, sh, cfg, q, init, rest);
      WritesConcat(cnt, sh, cfg, q, before, after);
      WritesConcat(cnt, sh, cfg, q, before + [x], after);
      WritesConcat(cnt, sh, cfg, q, before, [x]);
      assert Writes(cnt, sh, cfg, q, [x]) == CellWrites(cnt, sh, cfg, q, x);
    }
  }

  /** The outcome of a sweep does not depend on the scan order: sweeping the
      same distinct cells in any two orders yields the same Q-table and the
      same number of writes. */
  lemma SweepAnyOrder(cnt: Table4<nat>, sh: Shape, cfg: Config, q: Table4<real>, keys1: seq<Key>, keys2: seq<Key>)
    requires WellShaped(cnt, sh) && WellShaped(q, sh)
    requires forall x :: x in keys1 ==> KeyIn(sh, x)
    requires Distinct(keys1) && Distinct(keys2)
    requires forall x :: x in keys1 <==> x in keys2
    ensures Sweep(cnt, sh, cfg, q, keys1) == Sweep(cnt, sh, cfg, q, keys2)
  {
    SweepReadsOriginal(cnt, sh, cfg, q, keys1);
    SweepReadsOriginal(cnt, sh, cfg, q, keys2);
    WritesAnyOrder(cnt, sh, cfg, q, keys1, keys2);
    SameSlices(Sweep(cnt, sh, cfg, q, keys1).q, Sweep(cnt, sh, cfg, q, keys2).q, sh);
  }

  /** One more neighbour contributes its sample exactly when it is supported. */
  lemma EvidenceSnoc(cnt: Table4<nat>, q: Table4<real>, sh: Shape, minSupport: real, ns: seq<Cell>, n: Cell, b: int)
    requires WellShaped(cnt, sh) && WellShaped(q, sh) && 0 <= b < BallOwnerStates
    requires forall x :: x in ns ==> InGrid(x, sh.rows, sh.cols)
    requires InGrid(n, sh.rows, sh.cols)
    ensures Evidence(cnt, q, sh, minSupport, ns + [n], b)
      == Evidence(cnt, q, sh, minSupport, ns, b)
         + (if Supported(cnt, sh, minSupport, n.row, n.col, b) then [NeighborSample(cnt, q, sh, n, b)] else [])
  {
    assert (ns + [n])[..|ns|] == ns;
  }

  /** Sweeping one more cell applies that cell's update, read from the table as it stands. */
  lemma SweepSnoc(cnt: Table4<nat>, sh: Shape, cfg: Config, q: Table4<real>, keys: seq<Key>, x: Key)
    requires WellShaped(cnt, sh) && WellShaped(q, sh)
    requires forall y :: y in keys ==> KeyIn(sh, y)
    requires KeyIn(sh, x)
    ensures var st := Sweep(cnt, sh, cfg, q, keys);
      Sweep(cnt, sh, cfg, q, keys + [x])
      == if Low(cnt, sh, cfg, x) then
           var u := CellUpdate(cnt, st.q, sh, cfg, x.row, x.col, x.boi);
           SweepState(WriteCell(st.q, sh, x, u), st.updates + Written(u))
         else st
  {
    assert (keys + [x])[..|keys|] == keys;
  }

}
