/** The pure decision helpers of the hand-coded player: the compass move
    towards a target, the pass-range test, the trainer's patience and the
    trainer's episode-length timeout. */
module HandCoded {
  import opened Grid

  /** The actions the helpers choose from. Rows grow southwards and columns eastwards. */
  datatype ActionType = Hold | MoveNorth | MoveSouth | MoveEast | MoveWest

  /** GetMovementDirection: the compass move from src towards dst. Vertical
      moves win whenever the row distance is at least the column distance
      (diagonal ties included); the player holds only on the target itself. */
  function GetMovementDirection(src: Cell, dst: Cell): (ac: ActionType)
    ensures var dr, dc := dst.row - src.row, dst.col - src.col;
      && (ac == Hold <==> dr == 0 && dc == 0)
      && (ac == MoveSouth <==> dr > 0 && Abs(dr) >= Abs(dc))
      && (ac == MoveNorth <==> dr < 0 && Abs(dr) >= Abs(dc))
      && (ac == MoveEast <==> dc > 0 && Abs(dc) > Abs(dr))
      && (ac == MoveWest <==> dc < 0 && Abs(dc) > Abs(dr))
  {
    var dr := dst.row - src.row;
    var dc := dst.col - src.col;
    if dr == 0 && dc == 0 then Hold
    else if dr > 0 && dr >= Abs(dc) then MoveSouth
    else if dr < 0 && -dr >= Abs(dc) then MoveNorth
    else if dc > 0 && dc >= Abs(dr) then MoveEast
    else if dc < 0 && -dc >= Abs(dr) then MoveWest
    else Hold
  }

  /** Where a move takes a player, ignoring the field's edges and other players. */
  function Step(p: Cell, ac: ActionType): Cell
  {
    match ac
    case Hold => p
    case MoveNorth => Cell(p.row - 1, p.col)
    case MoveSouth => Cell(p.row + 1, p.col)
    case MoveEast => Cell(p.row, p.col + 1)
    case MoveWest => Cell(p.row, p.col - 1)
  }

  /** The number of orthogonal moves between two cells. */
  function Manhattan(a: Cell, b: Cell): nat
  {
    Abs(a.row - b.row) + Abs(a.col - b.col)
  }

  /** Every chosen move brings the player one step closer to the target and
      never increases the king-move distance. */
  lemma MoveApproaches(src: Cell, dst: Cell)
    requires src != dst
    ensures Manhattan(Step(src, GetMovementDirection(src, dst)), dst) == Manhattan(src, dst) - 1
    ensures Chebyshev(Step(src, GetMovementDirection(src, dst)), dst) <= Chebyshev(src, dst)
  {
  }

  /** Follows GetMovementDirection towards dst for n moves. */
  function Chase(src: Cell, dst: Cell, n: nat): Cell
    decreases n
  {
    if n == 0 then src else Chase(Step(src, GetMovementDirection(src, dst)), dst, n - 1)
  }

  /** Following the chosen moves reaches the target after exactly as many
      moves as its Manhattan distance, and stays there. */
  lemma {:induction false} ChaseArrives(src: Cell, dst: Cell, n: nat)
    requires n >= Manhattan(src, dst)
    ensures Chase(src, dst, n) == dst
    decreases n
  {
    if n > 0 {
      if src != dst {
        MoveApproaches(src, dst);
      }
      ChaseArrives(Step(src, GetMovementDirection(src, dst)), dst, n - 1);
    }
  }

  /** PlayersCanPass: both the row and the column distance are within the
      pass distance. So passing is possible exactly within a king-move radius
      of the pass distance; it is symmetric, and a player is in range of
      itself exactly when the pass distance is not negative. */
  function PlayersCanPass(pos1: Cell, pos2: Cell, envPassDistance: int): (ok: bool)
    ensures ok <==> Chebyshev(pos1, pos2) <= envPassDistance
    ensures ok <==> Chebyshev(pos2, pos1) <= envPassDistance
    ensures pos1 == pos2 ==> (ok <==> envPassDistance >= 0)
  {
    Abs(pos1.row - pos2.row) <= envPassDistance && Abs(pos1.col - pos2.col) <= envPassDistance
  }

  /** The trainer's patience: the configured value when positive, otherwise
      five times the field's rows plus columns. The default is positive on a
      non-empty field and exceeds the longest chase across it. */
  function Patience(trainerPatience: int, envRows: nat, envCols: nat): (p: int)
    ensures trainerPatience > 0 ==> p == trainerPatience
    ensures trainerPatience <= 0 ==> p == 5 * (envRows + envCols)
    ensures trainerPatience <= 0 && envRows + envCols > 0 ==> p > 0
    ensures trainerPatience <= 0 ==> forall a: Cell, b: Cell ::
      InGrid(a, envRows, envCols) && InGrid(b, envRows, envCols) ==> Manhattan(a, b) < p
  {
    if trainerPatience <= 0 then 5 * (envRows + envCols) else trainerPatience
  }

  /** The trainer's episode bookkeeping: the last episode number seen (the
      sum of both scores) and the number of calls since it changed. */
  datatype EpisodeClock = EpisodeClock(prevEpisodeNum: int, curEpisodeLen: int)

  /** The clock of a newly constructed player: episode 0, length 0. */
  const InitialClock := EpisodeClock(0, 0)

  /** One trainer call: the clock afterwards, and whether the episode timed out. */
  datatype Tick = Tick(clock: EpisodeClock, timeout: bool)

  /** The trainer branch of NonAggressivePlayer, run once per call: a new
      score total starts a new episode, anything else lengthens the current
      one; the episode times out once its length reaches the patience. */
  function TrainerTick(clk: EpisodeClock, ourScore: int, oppScore: int, patience: int): (t: Tick)
    ensures var total := ourScore + oppScore;
      && t.clock.prevEpisodeNum == (if total > clk.prevEpisodeNum then total else clk.prevEpisodeNum)
      && (total > clk.prevEpisodeNum ==> t.clock.curEpisodeLen == 0)
      && (total <= clk.prevEpisodeNum ==> t.clock.curEpisodeLen == clk.curEpisodeLen + 1)
      && (t.timeout <==> t.clock.curEpisodeLen >= patience)
  {
    var total := ourScore + oppScore;
    var clk' := if total > clk.prevEpisodeNum then EpisodeClock(total, 0)
                else clk.(curEpisodeLen := clk.curEpisodeLen + 1);
    Tick(clk', clk'.curEpisodeLen >= patience)
  }

  /** The scores seen at one trainer call. */
  datatype Scores = Scores(our: int, opp: int)

  /** The clock after a run of trainer calls. */
  function RunClock(clk: EpisodeClock, calls: seq<Scores>, patience: int): EpisodeClock
  {
    if |calls| == 0 then clk
    else
      var last := calls[|calls| - 1];
      TrainerTick(RunClock(clk, calls[..|calls| - 1], patience), last.our, last.opp, patience).clock
  }

  /** The episode number never decreases. */
  lemma {:induction false} EpisodeNumberMonotone(clk: EpisodeClock, calls: seq<Scores>, patience: int)
    ensures clk.prevEpisodeNum <= RunClock(clk, calls, patience).prevEpisodeNum
  {
    if |calls| > 0 {
      EpisodeNumberMonotone(clk, calls[..|calls| - 1], patience);
    }
  }

  /** While nobody scores, every call lengthens the episode by one, so the
      n-th call times out exactly when the starting length plus n reaches the
      patience: from a fresh episode, the first timeout is the patience-th call. */
  lemma {:induction false} QuietEpisode(clk: EpisodeClock, calls: seq<Scores>, patience: int)
    requires forall i :: 0 <= i < |calls| ==> calls[i].our + calls[i].opp <= clk.prevEpisodeNum
    ensures RunClock(clk, calls, patience) == EpisodeClock(clk.prevEpisodeNum, clk.curEpisodeLen + |calls|)
    ensures |calls| > 0 ==>
      var last := calls[|calls| - 1];
      var t := TrainerTick(RunClock(clk, calls[..|calls| - 1], patience), last.our, last.opp, patience);
      t.timeout <==> clk.curEpisodeLen + |calls| >= patience
  {
    if |calls| > 0 {
      QuietEpisode(clk, calls[..|calls| - 1], patience);
    }
  }

  /** A freshly started trainer, while nobody scores, has seen an episode of
      length n after n calls, and its first timeout is call number `patience`
      (the first call when the patience is not positive). */
  lemma FreshTrainerTimeout(calls: seq<Scores>, patience: int)
    requires forall i :: 0 <= i < |calls| ==> calls[i].our + calls[i].opp <= 0
    ensures RunClock(InitialClock, calls, patience) == EpisodeClock(0, |calls|)
    ensures |calls| > 0 ==>
      var last := calls[|calls| - 1];
      var t := TrainerTick(RunClock(InitialClock, calls[..|calls| - 1], patience), last.our, last.opp, patience);
      t.timeout <==> |calls| >= patience
  {
    QuietEpisode(InitialClock, calls, patience);
  }

}
