# Grid-soccer visit counters and k-cyclic Q-generalisation, in Dafny

This project models two pieces of the grid-soccer simulator's agents.

The first is the self-only counter module of the reinforcement-learning agents. It is a dense table of visit
counts indexed by the player's own cell, a three-way ball-owner class and an action. From it the module derives:

- the *support* of a cell, which is its total number of visits;
- the *confidence* of an action, which is its share of those visits;
- the *k-cyclic neighbourhood* of a cell, which is the hollow squares of radius 1..k around it, clipped to the field.

The module also runs one generalisation pass over a Q-table. The pass rewrites every cell whose support is below
`MinSupport`, using its well-supported neighbours and one of three rules:

- **Averaging** writes the mean of the confident neighbours' Q-values per action.
- **TopQ** writes their maximum per action.
- **Voting** lets each neighbour vote for its greedy action, then writes only the winning action.

The second piece is the pure decision helpers of the hand-coded player:

- the compass move towards a target;
- the pass-range test;
- the trainer's patience;
- the trainer's episode-length timeout.

Layout, one module per file:

- `Grid`, `Options`, `Seqs` and `Stats` hold cells, Chebyshev distance, `Option`, distinctness, and real
  sums, means, maxima and the first arg-max.
- `Counters` holds the counter table (`Table4<nat>`), the ball-owner index, get and increment, support and
  confidence.
- `Rings` holds the neighbourhood as a function (`KCyclicNeighbors`) and as SelfOnlyCounterModule's loops
  (`GetKCyclicNeighbors`).
- `Aggregation` holds the three rules as functions over the *evidence*. The evidence is the counts and Q-values
  of the supported neighbours.
- `Generalisation` holds the per-cell update and the full pass. The pass is a sequential sweep in SelfOnlyCounterModule's
  scan order, in which every cell reads the Q-table as it stands at that moment. It also holds the proofs that
  writes never feed later reads and that the scan order does not matter.
- `UpdateLoops` holds SelfOnlyCounterModule's nested loops, imperatively. Each is proved to compute exactly the functional
  rule.
- `HandCoded` holds the hand-coded player's helpers.

Q-values and confidences are `real`. The `Double.MinValue` starting values of SelfOnlyCounterModule become `Option.None`.
Counts are unbounded naturals. The dimensions and the pass parameters are explicit parameters: rows, columns,
action count, `MinSupport`, `MinConfidence`, `K` and `Method`.

## Model

| member | source | states |
|---|---|---|
| Counters.BallOwnerIndex | Source/RLAgents/RLAgentsCommon/CounterModules/SelfOnlyCounterModule.cs:67-75 | The index is below 3. It is 0 exactly when I own the ball, 1 exactly when I do not but my team does, and 2 exactly when neither does. |
| Counters.Zeros | Source/RLAgents/RLAgentsCommon/CounterModules/SelfOnlyCounterModule.cs:44-48 | A new table has the shape rows x cols x 3 x actions, and every count in it is zero. |
| Generalisation.NewCounterModule | Source/RLAgents/RLAgentsCommon/CounterModules/SelfOnlyCounterModule.cs:35-49 | A new module has the given shape and no recorded updates, and every cell and ball-owner class has support 0. |
| Counters.IncrementCountValue | Source/RLAgents/RLAgentsCommon/CounterModules/SelfOnlyCounterModule.cs:84-88 | Exactly one entry grows by one: the 1-based position shifted to 0-based, the state's ball-owner index and the action. Every other entry and the shape are unchanged. |
| Counters.ReplayCounts | Source/RLAgents/RLAgentsCommon/CounterModules/SelfOnlyCounterModule.cs:77-88 | After any sequence of observations, the count read for (state, action) at the same shifted index is the earlier count plus the number of observations keyed to that entry. Counts never shrink. |
| Counters.GetSupport | Source/RLAgents/RLAgentsCommon/CounterModules/SelfOnlyCounterModule.cs:324-334 | The loop's result is the sum of the cell's counts over all actions. It bounds every single count, and it is zero exactly when every count is zero. |
| Counters.SupportAfterIncrement | Source/RLAgents/RLAgentsCommon/CounterModules/SelfOnlyCounterModule.cs:84-88 | Counting a visit raises the support of the visited cell and ball-owner class by one and leaves every other support unchanged. |
| Counters.ConfidenceOf | Source/RLAgents/RLAgentsCommon/CounterModules/SelfOnlyCounterModule.cs:318-322 | The confidence of a visited cell's action lies in [0, 1]. It is 0 exactly when the action was never taken, 1 exactly when only that action was taken, and it times the support gives back the count. |
| Counters.ConfidencesSumToOne | Source/RLAgents/RLAgentsCommon/CounterModules/SelfOnlyCounterModule.cs:318-334 | For a visited cell, the confidences of all actions add up to exactly one. |
| Aggregation.Confident | Source/RLAgents/RLAgentsCommon/CounterModules/SelfOnlyCounterModule.cs:254 | The confidence test used at lines 161, 216 and 254. An unvisited neighbour is never trusted, because its 0/0 confidence compares false. A threshold above one trusts nothing. A threshold at or below zero trusts every action of a visited neighbour. An action that took every visit is trusted exactly when the threshold is at most one. |
| Aggregation.ConfidentCounts | Source/RLAgents/RLAgentsCommon/CounterModules/SelfOnlyCounterModule.cs:318-322 | The confidence test on the counts: an action is trusted exactly when the neighbour was visited and the action's count is at least MinConfidence times the support. |
| Rings.KCyclicNeighbors | Source/RLAgents/RLAgentsCommon/CounterModules/SelfOnlyCounterModule.cs:275-316 | Every neighbour lies on the field at Chebyshev distance 1..k from the centre, so the centre itself is never returned. |
| Rings.SideMembers | Source/RLAgents/RLAgentsCommon/CounterModules/SelfOnlyCounterModule.cs:283-289 | A side loop keeps exactly the on-field cells of its run of the fixed row or column. |
| Rings.SideLength | Source/RLAgents/RLAgentsCommon/CounterModules/SelfOnlyCounterModule.cs:283-313 | When both ends of a run are on the field, a side has one cell per step of the run. |
| Rings.RingMembers | Source/RLAgents/RLAgentsCommon/CounterModules/SelfOnlyCounterModule.cs:283-313 | The four side loops of radius ki yield exactly the on-field cells at Chebyshev distance ki. |
| Rings.RingDistinct | Source/RLAgents/RLAgentsCommon/CounterModules/SelfOnlyCounterModule.cs:283-313 | The upper, lower, left and right sides of a ring are pairwise disjoint and repeat no cell, because the left and right columns omit the corners. |
| Rings.RingFullSize | Source/RLAgents/RLAgentsCommon/CounterModules/SelfOnlyCounterModule.cs:283-313 | An unclipped ring of radius ki has 8 * ki cells. |
| Rings.RingsDisjoint | Source/RLAgents/RLAgentsCommon/CounterModules/SelfOnlyCounterModule.cs:278-314 | Rings of different radii share no cell. |
| Rings.NeighborsMembers | Source/RLAgents/RLAgentsCommon/CounterModules/SelfOnlyCounterModule.cs:275-316 | A cell is a neighbour exactly when it is on the field at Chebyshev distance 1..k. |
| Rings.NeighborsDistinct | Source/RLAgents/RLAgentsCommon/CounterModules/SelfOnlyCounterModule.cs:275-316 | No neighbour appears twice. With NeighborsMembers, every on-field cell at distance 1..k appears exactly once. |
| Rings.NeighborsFullSize | Source/RLAgents/RLAgentsCommon/CounterModules/SelfOnlyCounterModule.cs:275-316 | An unclipped neighbourhood of radius k has 4k(k+1) cells. |
| Rings.AppendSide | Source/RLAgents/RLAgentsCommon/CounterModules/SelfOnlyCounterModule.cs:283-289 | The side loop appends to the list exactly the side's on-field cells, in loop order. |
| Rings.AppendRing | Source/RLAgents/RLAgentsCommon/CounterModules/SelfOnlyCounterModule.cs:283-313 | The four side loops of one radius append exactly that ring, in the order upper, lower, left, right. |
| Rings.GetKCyclicNeighbors | Source/RLAgents/RLAgentsCommon/CounterModules/SelfOnlyCounterModule.cs:275-316 | The loop over radii 1..k returns exactly the neighbourhood KCyclicNeighbors describes, innermost ring first. |
| Aggregation.Greedy | Source/RLAgents/RLAgentsCommon/CounterModules/SelfOnlyCounterModule.cs:155-170 | A neighbour has no greedy action exactly when it is confident about none. Otherwise the greedy action is a confident action whose Q-value is at least that of every confident action and strictly above every lower-indexed one. |
| Aggregation.Averaging | Source/RLAgents/RLAgentsCommon/CounterModules/SelfOnlyCounterModule.cs:240-273 | The Averaging rule: one entry per action, the value to write or nothing. AveragingWrites states when and what it writes. |
| Aggregation.TopQ | Source/RLAgents/RLAgentsCommon/CounterModules/SelfOnlyCounterModule.cs:199-237 | The TopQ rule: one entry per action, the value to write or nothing. TopQWrites states when and what it writes. |
| Aggregation.AveragingWrites | Source/RLAgents/RLAgentsCommon/CounterModules/SelfOnlyCounterModule.cs:252-272 | Averaging writes action a exactly when some supported neighbour is confident about a. It then writes the mean of exactly those neighbours' Q-values for a, which lies between their minimum and maximum. |
| Aggregation.TopQWrites | Source/RLAgents/RLAgentsCommon/CounterModules/SelfOnlyCounterModule.cs:214-235 | TopQ writes action a exactly when some supported neighbour is confident about a. It then writes a value that one of them holds and that none of them exceeds. |
| Aggregation.Voting | Source/RLAgents/RLAgentsCommon/CounterModules/SelfOnlyCounterModule.cs:181-196 | Voting writes at most one action per cell. |
| Aggregation.Winner | Source/RLAgents/RLAgentsCommon/CounterModules/SelfOnlyCounterModule.cs:181-190 | There is no winner exactly when nobody votes. Otherwise the winner has votes, at least as many as any action and strictly more than every lower-indexed action, so ties go to the lowest index. |
| Aggregation.VotingWinner | Source/RLAgents/RLAgentsCommon/CounterModules/SelfOnlyCounterModule.cs:172-196 | A written action has votes, at least as many as any other action and strictly more than every lower-indexed action. Its value is the largest greedy Q-value among its voters and is held by one of them. |
| Aggregation.VotingSilent | Source/RLAgents/RLAgentsCommon/CounterModules/SelfOnlyCounterModule.cs:155-196 | Voting writes nothing exactly when no supported neighbour is confident about any action, that is, when nobody votes. |
| Generalisation.EvidenceMembers | Source/RLAgents/RLAgentsCommon/CounterModules/SelfOnlyCounterModule.cs:246-249 | A sample is evidence exactly when it belongs to a neighbour whose support reaches MinSupport in the same ball-owner class. |
| Generalisation.CellUpdate | Source/RLAgents/RLAgentsCommon/CounterModules/SelfOnlyCounterModule.cs:123-134 | The configured rule applied to a cell's evidence yields one entry per action. PerActionWrites, AveragingWrites, TopQWrites and VotingWinner state what is written. |
| Generalisation.CellUpdateFrame | Source/RLAgents/RLAgentsCommon/CounterModules/SelfOnlyCounterModule.cs:150-153 | A cell's update reads the Q-table only at supported cells: two Q-tables that agree there give the same update. |
| Generalisation.PerActionWrites | Source/RLAgents/RLAgentsCommon/CounterModules/SelfOnlyCounterModule.cs:208-223 | Under Averaging or TopQ, action a of a low cell is written exactly when some neighbour within radius k is supported and confident about a. |
| Generalisation.ScanOrderFacts | Source/RLAgents/RLAgentsCommon/CounterModules/SelfOnlyCounterModule.cs:112-117 | The ball-owner, row and column loops visit every cell and ball-owner class of the table exactly once. |
| Generalisation.Sweep | Source/RLAgents/RLAgentsCommon/CounterModules/SelfOnlyCounterModule.cs:112-136 | The in-place pass over the given cells keeps the Q-table's shape. SweepReadsOriginal and SweepAnyOrder state what it writes and that the order does not matter. |
| Generalisation.SweepReadsOriginal | Source/RLAgents/RLAgentsCommon/CounterModules/SelfOnlyCounterModule.cs:107-139 | In a pass over distinct cells that reads the live Q-table, writes never feed later reads. Every visited low cell gets the update computed from the table before the pass, every other cell is unchanged, and the count is the number of values written. |
| Generalisation.FullSweep | Source/RLAgents/RLAgentsCommon/CounterModules/SelfOnlyCounterModule.cs:107-139 | The full pass in scan order leaves every supported cell's Q-values unchanged and gives every low cell the update read from the table before the pass. |
| Generalisation.SweepAnyOrder | Source/RLAgents/RLAgentsCommon/CounterModules/SelfOnlyCounterModule.cs:112-136 | Sweeping the same distinct cells in any two orders yields the same Q-table and the same update count. |
| Generalisation.WritesAnyOrder | Source/RLAgents/RLAgentsCommon/CounterModules/SelfOnlyCounterModule.cs:112-136 | The number of values written does not depend on the order in which the cells are visited. |
| Generalisation.PerformKCyclicNeighborQUpdate | Source/RLAgents/RLAgentsCommon/CounterModules/SelfOnlyCounterModule.cs:107-139 | The pass never changes the counter table. Supported cells keep their Q-values, and low cells receive the configured rule's update of their evidence. The update count restarts from zero and ends as the number of values written. |
| UpdateLoops.AccumulateAveraging | Source/RLAgents/RLAgentsCommon/CounterModules/SelfOnlyCounterModule.cs:252-259 | After one more supported neighbour, each action's running sum and count are the sum and number of the confident Q-values seen so far. |
| UpdateLoops.NeighborsAveraging | Source/RLAgents/RLAgentsCommon/CounterModules/SelfOnlyCounterModule.cs:246-261 | After the neighbour loop, each action's sum and count cover exactly the qualifying evidence. |
| UpdateLoops.Quotients | Source/RLAgents/RLAgentsCommon/CounterModules/SelfOnlyCounterModule.cs:263-272 | The final loop yields, for every action with a positive count, its sum divided by its count, and nothing for the others. |
| UpdateLoops.MeansOfSums | Source/RLAgents/RLAgentsCommon/CounterModules/SelfOnlyCounterModule.cs:263-272 | Dividing the accumulated sums by nonzero counts, and leaving the other actions alone, is the Averaging rule. |
| UpdateLoops.PerformAveraging | Source/RLAgents/RLAgentsCommon/CounterModules/SelfOnlyCounterModule.cs:240-273 | SelfOnlyCounterModule's loops compute exactly the Averaging rule on the cell's evidence. |
| UpdateLoops.AccumulateTopQ | Source/RLAgents/RLAgentsCommon/CounterModules/SelfOnlyCounterModule.cs:214-223 | After one more supported neighbour, each action's running maximum and count are the highest and the number of the confident Q-values seen so far. |
| UpdateLoops.NeighborsTopQ | Source/RLAgents/RLAgentsCommon/CounterModules/SelfOnlyCounterModule.cs:208-225 | After the neighbour loop, each action's maximum and count cover exactly the qualifying evidence. |
| UpdateLoops.Maxima | Source/RLAgents/RLAgentsCommon/CounterModules/SelfOnlyCounterModule.cs:227-235 | The final loop yields the running maximum of every action that has a positive count and a value, and nothing for the others. |
| UpdateLoops.MaximaOfNeighbors | Source/RLAgents/RLAgentsCommon/CounterModules/SelfOnlyCounterModule.cs:227-235 | Writing the maximum of every action with a positive count and a value is the TopQ rule. |
| UpdateLoops.PerformTopQ | Source/RLAgents/RLAgentsCommon/CounterModules/SelfOnlyCounterModule.cs:199-237 | SelfOnlyCounterModule's loops compute exactly the TopQ rule on the cell's evidence. |
| UpdateLoops.GreedyAction | Source/RLAgents/RLAgentsCommon/CounterModules/SelfOnlyCounterModule.cs:155-170 | The greedy loop returns -1 when the neighbour is confident about no action. Otherwise it returns the greedy action of Aggregation.Greedy with its Q-value. |
| UpdateLoops.CastVote | Source/RLAgents/RLAgentsCommon/CounterModules/SelfOnlyCounterModule.cs:172-177 | A neighbour's vote raises its greedy action's vote count by one and lifts that action's best value to the neighbour's greedy value when higher. Other actions are unaffected. |
| UpdateLoops.NeighborsVoting | Source/RLAgents/RLAgentsCommon/CounterModules/SelfOnlyCounterModule.cs:150-179 | After the neighbour loop, each action's vote count and best value are the number and the maximum of the greedy Q-values voted for it. |
| UpdateLoops.WinnerIndex | Source/RLAgents/RLAgentsCommon/CounterModules/SelfOnlyCounterModule.cs:181-190 | The winner loop returns -1 and 0 when nobody voted. Otherwise it returns the first action with the most votes and its positive vote count. |
| UpdateLoops.VotingFromTally | Source/RLAgents/RLAgentsCommon/CounterModules/SelfOnlyCounterModule.cs:192-196 | Writing the winner's best value, and nothing else, is the Voting rule. |
| UpdateLoops.PerformVoting | Source/RLAgents/RLAgentsCommon/CounterModules/SelfOnlyCounterModule.cs:141-197 | SelfOnlyCounterModule's loops compute exactly the Voting rule on the cell's evidence. |
| UpdateLoops.VisitCell | Source/RLAgents/RLAgentsCommon/CounterModules/SelfOnlyCounterModule.cs:118-135 | The loop body applies to the live Q-table exactly the step the sequential sweep takes for that cell. |
| UpdateLoops.ScanRow | Source/RLAgents/RLAgentsCommon/CounterModules/SelfOnlyCounterModule.cs:116-136 | The column loop advances the pass by exactly the cells of one row. |
| UpdateLoops.ScanPlane | Source/RLAgents/RLAgentsCommon/CounterModules/SelfOnlyCounterModule.cs:114-137 | The row loop advances the pass by exactly the cells of one ball-owner class, row by row. |
| UpdateLoops.PerformPass | Source/RLAgents/RLAgentsCommon/CounterModules/SelfOnlyCounterModule.cs:107-139 | SelfOnlyCounterModule's nested loops, with the count reset, compute exactly PerformKCyclicNeighborQUpdate. |
| HandCoded.GetMovementDirection | Source/BasicAgents/HandCodedClient/HandCodedClient.cs:34-62 | The player holds exactly on the target. South or north exactly when the row distance is nonzero and at least the column distance, so vertical wins diagonal ties. East or west exactly when the column distance is strictly larger. |
| HandCoded.MoveApproaches | Source/BasicAgents/HandCodedClient/HandCodedClient.cs:44-59 | Away from the target, every chosen move shortens the Manhattan distance by one and never lengthens the Chebyshev distance. |
| HandCoded.ChaseArrives | Source/BasicAgents/HandCodedClient/HandCodedClient.cs:34-62 | Repeating the chosen move reaches the target after exactly its Manhattan distance and then holds there. |
| HandCoded.PlayersCanPass | Source/BasicAgents/HandCodedClient/HandCodedClient.cs:291-296 | Passing is possible exactly within Chebyshev distance EnvPassDistance. It is symmetric, and reflexive exactly when the distance is not negative. |
| HandCoded.Patience | Source/BasicAgents/HandCodedClient/HandCodedClient.cs:21-24 | A positive configured patience is kept; otherwise the patience is five times the field's rows plus columns. That default is positive on a non-empty field and longer than any chase across it. |
| HandCoded.TrainerTick | Source/BasicAgents/HandCodedClient/HandCodedClient.cs:97-111 | A higher score total starts a new episode of length 0. Anything else lengthens the episode by one. The call times out exactly when the length reaches the patience. |
| HandCoded.EpisodeNumberMonotone | Source/BasicAgents/HandCodedClient/HandCodedClient.cs:97-101 | Over any run of trainer calls, the stored episode number never decreases. |
| HandCoded.QuietEpisode | Source/BasicAgents/HandCodedClient/HandCodedClient.cs:102-111 | While nobody scores, each call lengthens the episode by one. The n-th call times out exactly when the starting length plus n reaches the patience. |
| HandCoded.FreshTrainerTimeout | Source/BasicAgents/HandCodedClient/HandCodedClient.cs:76-111 | A new trainer starts at episode 0 with length 0. While nobody scores, the length after n calls is n, and call n times out exactly when n reaches the patience, so a positive patience first times out on call number patience. |

## Left out

- Persistence (`SaveBase`/`LoadBase`) is left out. It delegates to array-serialisation helpers that are not part of this model.
- `SoccerAction.GetActionCount` and the `Params.DM.*` settings are external configuration and become parameters: `Shape.actions` and `Config`.
- The Q-table object is external; it becomes a `Table4<real>` passed in and returned.
- The `MyUnum` and `TeammatesCount` getters only store constructor arguments and state nothing to prove, so they are left out.
- `Generalisation.NumberOfDMUpdates` is a plain getter and has no contract of its own. PerformKCyclicNeighborQUpdate states the value it reads.
- `Counters.GetCountValue` and `Counters.GetActionConfidence` are plain lookups without contracts of their own. ReplayCounts and ConfidenceOf state their meaning.
- Counters.IncrementCountValue: counts are unbounded naturals. Overflow of SelfOnlyCounterModule's 32-bit counters is not modelled.
- Counters.GetCountValue: a state off the field or an action out of range is a caller obligation (a `requires`). In SelfOnlyCounterModule the array indexer throws `IndexOutOfRangeException` there, which the model does not represent. The same holds for Counters.IncrementCountValue.
- Counters.GetSupport: SelfOnlyCounterModule sums into a double; the model sums naturals exactly. The two agree while every partial sum stays below 2^53, for example for any int32 counts over fewer than 2^22 actions.
- Counters.ConfidenceOf: requires a visited cell. SelfOnlyCounterModule divides 0 by 0 there and gets NaN, which compares false with every threshold. Aggregation.Confident models that case as "not confident".
- Aggregation.AveragingWrites: Q-values are reals. The mean is exact, not the rounded floating-point sum in SelfOnlyCounterModule's accumulation order.
- UpdateLoops.PerformTopQ: SelfOnlyCounterModule's `Double.MinValue` starting value becomes "no value". A neighbour Q-value equal to exactly `Double.MinValue` is not modelled.
- UpdateLoops.PerformVoting: the same `Double.MinValue` edge case is not modelled for the greedy value and the best value.
- HandCoded.GetMovementDirection: coordinates are unbounded integers. The overflow of `Math.Abs` at the smallest 32-bit integer is not modelled.
- HandCoded.PlayersCanPass: coordinates are unbounded integers, as for GetMovementDirection.
- HandCoded.Patience: the product 5 * (rows + cols) is not wrapped to 32 bits.
- HandCoded.TrainerTick: the episode-timeout message sent to the server, and the null action returned with it, are represented only by the `timeout` flag.
- The rest of the hand-coded player is left out, because it depends on networking, a global random generator and floating-point distance helpers that are not part of this model. This covers the server connection, home positions, `Think` dispatch on global flags, and the random, defensive, offensive and aggressive players.
