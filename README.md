# Ants bot core, modelled in Dafny

This project models the core of a Rust bot for the Ants AI Challenge. In the
game each player's ants move one cell per turn on a toroidal grid of land,
water and food. The bot decides each turn which ant goes in which direction.
The model covers the bot's decision-making core:

- **World steps** (`basic_world_step.dfy`, `early_world_step.dfy`). These
  record the orders a strategy gives in one turn and answer questions about
  the world: the player's live ants, the tile at a position, and the
  directions open from a cell. Orders are kept in submission order.
- **Order filters that wrap a world step**:
  - the water filter (`avoid_water_filter.dfy`) closes every direction that
    leads into water;
  - the current crash filter (`ant_crash_filter.dfy`) emits a list of orders
    in which no two ants end in the same cell. Convoys of ants walking in
    line are released front first. It also closes directions whose target
    cell is already claimed;
  - the early crash filter (`early_crash_filter.dfy`) drops every order
    whose target is taken by a stationary ant or by an earlier order.
- **Grid geometry** (`grid.dfy`): wrap-around neighbours, reversing an
  order, and wrapping an offset position back into the grid.
- **Searches**:
  - breadth-first search from a target back to the ants (`bfs.dfy`, and
    `nearest_orders.dfy` for the older one-file search);
  - a Manhattan-distance pre-filter on the sources (`manhattan_filter.dfy`);
  - a repeated A* search over a shared visited map (`repeated_a_star.dfy`);
  - a multi-target search that greedily picks conflict-free paths
    (`multisearch.dfy`).
  Search results are walks of positions (`search_result.dfy`). Their
  comparison orders and a sort are in `orderings.dfy`.
- **Strategies**:
  - the composite strategy, which runs strategies in turn on the ants still
    free (`composite_strategy.dfy`);
  - "best orders to target", which turns chosen search results into first
    steps (`strategy.dfy`);
  - the spread-out scout's lattice of target points
    (`spread_out_scout.dfy`).
- **Vision masks** (`reach.dfy`): the disc of offsets within a squared
  radius, and that disc placed on the torus.
- **Test utilities** (`utilities.dfy`): trimming of map text, and parsing a
  text map into a world state.

Operations that update an object in place are modelled as classes with
`modifies` clauses. A world step's order list is a `seq` field that
`AddOrder` extends. Loops over a collection are methods proved against a
pure function of their inputs. The properties are lemmas about those
functions.

Some choices in the model:
- A world step is a fixed `BasicWorldStep` delegate, because the model has no
  traits.
- A search handed to a strategy is a function parameter.
- The game's visibility radius, a floating-point square root, is a parameter
  `reach` with the requirement that it covers the radius.
- Positions are assumed to lie in the grid wherever the source indexes the
  grid with them.

The water filter looks only at the tiles its directions lead to, not at the
querying ant's own tile (`src/world_step/avoid_water_filter.rs:38-48`).

## Model

| member | source | states |
|---|---|---|
| CrashFilter.ResolveOrders | src/world_step/ant_crash_filter.rs:31-78 | the order-by-order resolution loop equals the fold `Resolve`; every emitted order was submitted by one of the player's ants; no order is emitted twice; no two emitted orders share a target cell; an emitted order into a cell holding one of the player's ants comes with an emitted order moving that ant away |
| CrashFilter.RunCascade | src/world_step/ant_crash_filter.rs:59-70 | the release loop (emit the order waiting for the cell just left, then follow its ant's source cell) computes `Cascade` |
| CrashFilter.ReleaseStep | src/world_step/ant_crash_filter.rs:61-70 | the order waiting for the vacated cell was not emitted before, and releasing it keeps the cascade invariant (so the loop ends) |
| CrashFilter.CascadeKeepsInv | src/world_step/ant_crash_filter.rs:59-70 | a whole release cascade ends in a state satisfying the resolver invariant |
| CrashFilter.EmitStart | src/world_step/ant_crash_filter.rs:54-58 | emitting an order into a free cell establishes the cascade invariant with the cursor on the ant's source cell |
| CrashFilter.StepKeepsInv | src/world_step/ant_crash_filter.rs:45-75 | each submitted order (ignored, dropped, deferred or emitted) keeps the resolver invariant |
| CrashFilter.RunInv | src/world_step/ant_crash_filter.rs:45-77 | the invariant holds after any prefix of the submitted orders |
| CrashFilter.ResolveIsCollisionFree | src/world_step/ant_crash_filter.rs:31-78 | emitted orders come from the submitted orders and the player's ants, are duplicate-free, and have pairwise distinct targets; no emitted order moves into a cell whose ant stays put |
| CrashFilter.CascadeExtends | src/world_step/ant_crash_filter.rs:59-70 | the release cascade only appends to the emitted orders |
| CrashFilter.RunLeftByEmitting | src/world_step/ant_crash_filter.rs:45-77 | an ant leaves the unmoved set only when an order of its own is emitted |
| CrashFilter.IndependentMovesPass | src/world_step/ant_crash_filter.rs:45-58 | orders whose targets are free and distinct are all emitted unchanged, in submission order |
| CrashFilter.FreeDirections | src/world_step/ant_crash_filter.rs:88-106 | keeps, in order, exactly those directions whose neighbour no submitted order targets |
| CrashFilter.AntCrashFilter.constructor | src/world_step/ant_crash_filter.rs:12-14 | the filter wraps the given world step |
| CrashFilter.AntCrashFilter.AddOrder | src/world_step/ant_crash_filter.rs:26-29 | the order is appended to the delegate's order list |
| CrashFilter.AntCrashFilter.GetOrders | src/world_step/ant_crash_filter.rs:31-78 | returns `Resolve` of the delegate's orders and ants: duplicate-free submitted orders of the player's ants with distinct targets, none moving into a cell whose ant stays put |
| CrashFilter.AntCrashFilter.AvailableDirections | src/world_step/ant_crash_filter.rs:88-106 | a subsequence of the delegate's directions; a direction is kept iff no submitted order targets its neighbour cell |
| CrashFilterScenarios.ConvoyWaits | src/world_step/ant_crash_filter.rs:171-194 | in a convoy, the three rear ants' orders wait for the cells ahead |
| CrashFilterScenarios.ConvoyCascade | src/world_step/ant_crash_filter.rs:171-194 | the front ant's move releases the whole convoy, front to back |
| CrashFilterScenarios.ConvoyIsReleasedFrontFirst | src/world_step/ant_crash_filter.rs:171-194 | a convoy submitted back to front is emitted front to back |
| CrashFilterScenarios.OrderedQueueMoves | src/world_step/ant_crash_filter.rs:269-288 | a queue submitted front first moves as submitted |
| CrashFilterScenarios.PileUpBehindClaimedCell | src/world_step/ant_crash_filter.rs:240-253 | ants behind a cell claimed by another ant stay put |
| CrashFilterScenarios.BlockedByStationaryAnt | src/world_step/ant_crash_filter.rs:196-214 | orders into a cell held by an ant that never moves are not emitted |
| CrashFilterScenarios.FirstOrderWins | src/world_step/ant_crash_filter.rs:121-169 | of two orders into one cell, the first submitted wins, also across the wrap-around edge |
| CrashFilterScenarios.NoInterference | src/world_step/ant_crash_filter.rs:216-238 | independent moves are all emitted |
| CrashFilterScenarios.ClaimedCellClosesDirection | src/world_step/ant_crash_filter.rs:121-145 | a claimed cell closes the one direction that leads into it |
| CrashFilterScenarios.WrapAroundClosesBothWays | src/world_step/ant_crash_filter.rs:147-169 | on a 2x2 torus a claimed cell closes both directions that reach it |
| CrashFilterScenarios.SwapNeverReleases | src/world_step/ant_crash_filter.rs:62-70 | two ants each waiting for the other's cell send the release loop round without end |
| CrashFilterScenarios.DuplicateSourceNeverStops | src/world_step/ant_crash_filter.rs:45-70 | with a second order from one ant, the release loop's condition holds in every round |
| AvoidWater.DryDirections | src/world_step/avoid_water_filter.rs:38-48 | keeps, in order, exactly those directions whose neighbour is not water |
| AvoidWater.AvoidWaterFilter.constructor | src/world_step/avoid_water_filter.rs:9-11 | the filter wraps the given world step |
| AvoidWater.AvoidWaterFilter.AddOrder | src/world_step/avoid_water_filter.rs:21-24 | the order is appended to the delegate's order list |
| AvoidWater.AvoidWaterFilter.AvailableDirections | src/world_step/avoid_water_filter.rs:38-48 | a subsequence of the delegate's directions; a direction is kept iff its neighbour tile is not water |
| AvoidWater.NoWaterKeepsAll | src/world_step/avoid_water_filter.rs:38-48 | with no water around, every direction stays open |
| AvoidWater.DiagonalWaterDoesNotBlock | src/world_step/avoid_water_filter.rs:62-72 | water on the diagonals and food beside the ant close nothing |
| AvoidWater.WalledInGoesEast | src/world_step/avoid_water_filter.rs:74-84 | an ant walled in on three sides can go only East |
| BasicWorldSteps.BasicWorldStep.constructor | src/world_step/basic_world_step.rs:11-17 | a new world step holds the world and its size and no orders |
| BasicWorldSteps.BasicWorldStep.AddOrder | src/world_step/basic_world_step.rs:28-31 | the order is appended to the order list |
| BasicWorldSteps.BasicWorldStep.AllMyAnts | src/world_step/basic_world_step.rs:41-43 | a position is listed iff player 0 has a live ant there |
| BasicWorldSteps.BasicWorldStep.AvailableDirections | src/world_step/basic_world_step.rs:45-50 | all four directions, in the order North, South, East, West |
| BasicWorldSteps.BasicWorldStep.TileAt | src/world_step/basic_world_step.rs:52-60 | food wins over water; otherwise water; otherwise empty |
| BasicWorldSteps.BasicWorldStep.GetPositions | src/world_step/basic_world_step.rs:62-68 | food tiles give the food list, water tiles the water list, anything else nothing |
| BasicWorldSteps.SubmissionOrder | src/world_step/basic_world_step.rs:28-35 | orders are returned exactly as submitted, in order |
| EarlyWorldStep.BasicWorldStep.constructor | src/world_step.rs:36-42 | a new world step holds the world and its size and no orders |
| EarlyWorldStep.BasicWorldStep.AddOrder | src/world_step.rs:55-58 | the order is appended to the order list |
| EarlyWorldStep.BasicWorldStep.AllMyAnts | src/world_step.rs:68-70 | a position is listed iff player 0 has a live ant there |
| EarlyWorldStep.BasicWorldStep.AvailableDirections | src/world_step.rs:72-77 | all four directions, in the order North, South, East, West |
| EarlyWorldStep.BasicWorldStep.TileAt | src/world_step.rs:79-85 | a tile is water iff it is in the water list |
| EarlyCrashFilter.TargetPositionAsWritten | src/ant_crash_filter.rs:40-53 | agrees with the wrap-around target except for South on the last row and East on the last column, where it leaves the grid |
| EarlyCrashFilter.KeptOrdersAreCollisionFree | src/ant_crash_filter.rs:72-85 | kept orders are a subsequence of the given ones, avoid the taken cells, have distinct targets, and every dropped order's target was taken or kept |
| EarlyCrashFilter.Stationary | src/ant_crash_filter.rs:63-67 | a position is stationary iff it holds an ant and no order starts there |
| EarlyCrashFilter.AntCrashFilter.constructor | src/ant_crash_filter.rs:17-23 | a new filter holds the world and size and no orders |
| EarlyCrashFilter.AntCrashFilter.Add | src/ant_crash_filter.rs:35-38 | the order is appended to the order list |
| EarlyCrashFilter.AntCrashFilter.GetOrders | src/ant_crash_filter.rs:55-86 | equals `KeptOrders` with wrap-around targets; kept orders are a subsequence, miss the stationary ants, and have distinct targets |
| EarlyCrashFilter.Sources | src/ant_crash_filter.rs:58-59 | lists each order's source, in order |
| EarlyCrashFilter.StationaryAnts | src/ant_crash_filter.rs:61-67 | computes `Stationary` |
| EarlyCrashFilter.Reserve | src/ant_crash_filter.rs:69-71 | the taken set is exactly the stationary ants |
| EarlyCrashFilter.Scan | src/ant_crash_filter.rs:72-85 | the scan over the orders computes `KeptOrders` |
| EarlyCrashFilter.AsWrittenMissesWrapAroundCollision | src/ant_crash_filter.rs:40-53 | on a 2x2 grid a South order from the last row into a stationary ant is kept as written and dropped with wrap-around |
| EarlyCrashFilter.EarlierOrderWins | src/ant_crash_filter.rs:95-129 | of two orders into one cell, the earlier is kept |
| EarlyCrashFilter.MoveOutOfTheWay | src/ant_crash_filter.rs:131-147 | an order into a cell whose ant moves away is kept |
| EarlyCrashFilter.StationaryAntKeepsItsCell | src/ant_crash_filter.rs:149-163 | an order into a stationary ant's cell is dropped |
| Grid.AllDirectionsComplete | src/world_step/basic_world_step.rs:45-50 | the four-direction list holds every direction |
| Grid.Neighbour | src/world_step/avoid_water_filter.rs:43-46 | the neighbour of an in-grid cell is in the grid; North/South keep the column and East/West the row |
| Grid.NeighbourAtEdge | src/ant_crash_filter.rs:40-53 | South and East step by one, and wrap to 0 on the last row or column |
| Grid.Reverse | src/strategy/search/bfs.rs:57 | the reversed order starts at the target and points the opposite way |
| Grid.StepBack | src/strategy/search/bfs.rs:52-57 | stepping one way and then the opposite way returns to the start |
| Grid.ReverseInvolution | src/strategy/search/bfs.rs:52-57 | reversing twice gives the original order, and the reversed order targets the original source |
| Grid.AsSizeForPos | src/reach.rs:34-38 | wraps an offset by at most one grid length into the grid, leaving in-grid coordinates alone |
| Grid.LiveAntsForPlayer | src/world_step/basic_world_step.rs:41-43 | lists exactly the positions of the given player's live ants |
| Bfs.ExpandFrom | src/strategy/search/bfs.rs:40-50 | a new layer is disjoint from the previous and current layers |
| Bfs.LayerIsFresh | src/strategy/search/bfs.rs:45-72 | each layer is disjoint from the two before it, and every cell in it is one open step from the layer before |
| Bfs.DryFringeStaysDry | src/strategy/search/bfs.rs:34 | once a layer is empty all later layers are empty |
| Bfs.LayersInGrid | src/strategy/search/bfs.rs:46-53 | layers grown from an in-grid target stay in the grid |
| Bfs.CellExpansionMembers | src/strategy/search/bfs.rs:41-50 | one cell's expansion holds exactly its open neighbours not in the previous or current layer |
| Bfs.Search | src/strategy/search/bfs.rs:10-75 | results are bounded by the maximum and the sources, each lies on a layer within the cutoff and steps into the layer before, rounds never decrease, and a search that stops short found every source within the cutoff |
| Bfs.ExpandRound | src/strategy/search/bfs.rs:39-72 | one round keeps results sound, only appends, and computes the next layer unless it stops |
| Bfs.ExpandCell | src/strategy/search/bfs.rs:40-68 | one cell's neighbours extend the layer and the results soundly |
| Bfs.Visit | src/strategy/search/bfs.rs:52-67 | a fresh neighbour joins the next layer, and a fresh source gives a result pointing back |
| Bfs.CellWithinRound | src/strategy/search/bfs.rs:40-68 | one cell's expansion lies within the whole round's |
| Bfs.ExpandOneMore | src/strategy/search/bfs.rs:40-68 | expanding one more cell adds exactly that cell's expansion |
| BfsScenarios.CutoffScenario | src/strategy/search/bfs.rs:32-38 | on a ring of 8 a source 3 steps away is missed with cutoff 2 and found, pointing West, with cutoff 3 |
| NearestOrders.NearestOrders | src/strategy/search.rs:7-71 | results come from the sources in layers within the cutoff, step back towards the target, come in layer order, and a short result list misses no reachable source |
| CompositeStrategy.RunAppend | src/strategy/composite_strategy.rs:26-38 | running two lists of strategies runs the second on the ants the first leaves, concatenating the orders |
| CompositeStrategy.RunSingle | src/strategy/composite_strategy.rs:26-38 | a single strategy runs as itself |
| CompositeStrategy.Apply | src/strategy/composite_strategy.rs:18-40 | the loop's orders are those of running the strategies in turn, and no ant is reported left over |
| Strategy.FirstOrders | src/strategy/mod.rs:51-54 | each order is the first step of one of the results and starts at a result's first position |
| Strategy.FirstOrdersDistinctAnts | src/strategy/mod.rs:39-54 | conflict-free results give orders to distinct ants |
| Strategy.FirstOrdersOfWalks | src/strategy/mod.rs:51-54 | results that are walks of two or more cells give one order each |
| Strategy.BestOrdersToTarget | src/strategy/mod.rs:30-55 | the results are a conflict-free choice from the paths the search returned for each target, and every returned path left out conflicts with a chosen one; orders are the chosen results' first steps, for distinct ants; the chosen ants leave the pool; with no targets nothing happens; with a sound search each result takes one available ant out of the pool and ends on a target |
| Strategy.RemoveChosen | src/strategy/mod.rs:47-49 | the pool loses exactly the chosen results' first positions |
| Strategy.PoolShrinks | src/strategy/mod.rs:47-49 | the pool shrinks by one ant per chosen result, and ordered ants leave it |
| Strategy.NoTargetScenario | src/strategy/hill_raiser.rs:28-45 | with no enemy hill the strategy gives no orders and keeps every ant |
| SpreadOutScout.GridPoints | src/strategy/spread_out_scout.rs:7-17 | the nested loop computes the lattice specification |
| SpreadOutScout.MultiplesMembers | src/strategy/spread_out_scout.rs:10-11 | the stepped range holds exactly the values from the start below the end in whole steps |
| SpreadOutScout.MultiplesIncreasing | src/strategy/spread_out_scout.rs:10-11 | the stepped range strictly increases |
| SpreadOutScout.MultiplesLength | src/strategy/spread_out_scout.rs:10-11 | the stepped range's length is the number of steps that fit |
| SpreadOutScout.PointsMembers | src/strategy/spread_out_scout.rs:10-14 | the points are exactly the pairs of a row and a column |
| SpreadOutScout.PointsLength | src/strategy/spread_out_scout.rs:10-14 | there are rows times columns points |
| SpreadOutScout.PointsRowMajor | src/strategy/spread_out_scout.rs:10-14 | increasing rows and columns give points in strictly increasing row-major order |
| SpreadOutScout.LatticeAxis | src/strategy/spread_out_scout.rs:10-11 | one axis of the lattice holds exactly the nonzero multiples of the step below the size |
| SpreadOutScout.GridPointsMembers | src/strategy/spread_out_scout.rs:7-17 | a point is in the lattice iff both coordinates are nonzero multiples of the step within the grid |
| SpreadOutScout.GridPointsRowMajor | src/strategy/spread_out_scout.rs:7-17 | the lattice is in strict row-major order, so free of duplicates |
| SpreadOutScout.GridPointsCount | src/strategy/spread_out_scout.rs:7-17 | the lattice size is the product of the per-axis counts |
| SpreadOutScout.ScoutLatticeExamples | src/strategy/spread_out_scout.rs:7-26 | a 15x15 grid with step 7 gives four points; a grid 7 rows high gives none |
| SpreadOutScout.Apply | src/strategy/spread_out_scout.rs:19-33 | the results are a conflict-free choice from the paths pooled over all lattice points, and every pooled path left out conflicts with a chosen one; orders are the results' first steps and go to distinct ants; the pool only shrinks; with a sound search each result takes one ant out of the pool, every ordered ant was available and has left it, and every result ends on a lattice point |
| ManhattanFilter.ManhattanSymmetric | src/strategy/search/manhattan_filter.rs:7-17 | the wrap-around distance is symmetric |
| ManhattanFilter.ManhattanBounds | src/strategy/search/manhattan_filter.rs:7-17 | each axis distance is at most half the axis length |
| ManhattanFilter.ManhattanZero | src/strategy/search/manhattan_filter.rs:7-17 | the distance is zero iff the positions are equal |
| ManhattanFilter.AxisStep | src/strategy/search/manhattan_filter.rs:7-17 | one step along an axis changes its distance by at most one |
| ManhattanFilter.ManhattanStep | src/strategy/search/manhattan_filter.rs:7-17 | one step on the torus changes the distance by at most one |
| ManhattanFilter.FilteredSources | src/strategy/search/manhattan_filter.rs:28-34 | keeps exactly the sources within the cutoff distance |
| ManhattanFilter.FilterMonotone | src/strategy/search/manhattan_filter.rs:28-34 | a larger cutoff keeps more, and a cutoff of half the grid keeps everything |
| ManhattanFilter.Distance16 | src/strategy/search/manhattan_filter.rs:7-17 | the distance cast to 16 bits lies in 0..65535 and equals the distance when that already does |
| ManhattanFilter.Limit16 | src/strategy/search/manhattan_filter.rs:28 | the cutoff cast to 16 bits lies in 0..65535 and equals the cutoff when that already does |
| ManhattanFilter.KeptSources | src/strategy/search/manhattan_filter.rs:28-34 | keeps exactly the sources whose 16-bit distance is at most the 16-bit cutoff |
| ManhattanFilter.KeptAgreesWithFiltered | src/strategy/search/manhattan_filter.rs:7-34 | for in-grid positions, axes below 65536 cells and a cutoff below 65536, the 16-bit comparison keeps exactly the sources within the cutoff |
| ManhattanFilter.CutoffWrapsToZero | src/strategy/search/manhattan_filter.rs:28-34 | a cutoff of 65536 wraps to 0 and keeps only the destination, where the exact comparison keeps every source |
| ManhattanFilter.Search | src/strategy/search/manhattan_filter.rs:19-43 | the inner search runs on exactly the sources whose 16-bit distance is within the 16-bit cutoff, with the other arguments unchanged; when the casts change nothing these are the sources within the cutoff |
| ManhattanFilter.LayerWithinDistance | src/strategy/search/manhattan_filter.rs:28-34 | every cell in breadth-first layer k is within distance k |
| ManhattanFilter.FilterKeepsReachableSources | src/strategy/search/manhattan_filter.rs:19-43 | filtering loses no source that the breadth-first search could reach within the cutoff |
| ManhattanFilter.TestDistances | src/strategy/search/manhattan_filter.rs:75-89 | the test sources lie at distances 1 to 4 from the origin on the 4x8 test grid |
| ManhattanFilter.TestFilteredSources | src/strategy/search/manhattan_filter.rs:75-141 | cutoffs 0 to 4 keep the expected growing sets of test sources |
| MultiSearch.GreedilyChoose | src/strategy/multisearch/mod.rs:34-56 | the chosen results are a conflict-free subsequence of the scan, and every left-out result conflicts with a result chosen before it |
| MultiSearch.ScanCoversAll | src/strategy/multisearch/mod.rs:34-56 | a scan of all results in any order chooses conflict-free results from them, and every result is chosen or conflicts |
| MultiSearch.ChosenStep | src/strategy/multisearch/mod.rs:40-53 | a scanned result is chosen iff it conflicts with no earlier choice |
| MultiSearch.ChosenProperties | src/strategy/multisearch/mod.rs:34-56 | the greedy choice is a conflict-free subsequence, and every left-out result conflicts with an earlier choice |
| MultiSearch.ChosenIsSubsequence | src/strategy/multisearch/mod.rs:40-55 | the greedy choice is a subsequence and a sub-multiset of the scan |
| MultiSearch.ChosenIsConflictFree | src/strategy/multisearch/mod.rs:44-52 | no two chosen results share a first or a last position |
| MultiSearch.LeftOutConflictsEarlier | src/strategy/multisearch/mod.rs:44-52 | every left-out result conflicts with a result chosen before it |
| MultiSearch.LeftOutConflicts | src/strategy/multisearch/mod.rs:40-53 | every scanned result is chosen or conflicts with the choice |
| MultiSearch.ConflictFreeCounts | src/strategy/multisearch/mod.rs:26-28 | conflict-free results have as many distinct first and last positions as results |
| MultiSearch.Pooled | src/strategy/multisearch/mod.rs:71-83 | the pool holds exactly the results of searching each target |
| MultiSearch.PooledAppend | src/strategy/multisearch/mod.rs:71-83 | one more target appends its search's results to the pool |
| MultiSearch.SearchAll | src/strategy/multisearch/mod.rs:60-86 | choices come conflict-free from the pool of all targets' results, every pooled result is chosen or conflicts, and with a sound search each choice joins a source to a target, at most one per source and per target |
| MultiSearch.SoundChoice | src/strategy/multisearch/mod.rs:60-86 | a conflict-free choice from a sound search's pool joins sources to targets and is no larger than either set |
| RepeatedAStar.InformedNew | src/strategy/search/repeated_a_star.rs:38-49 | the heuristic of a new node is nonnegative and zero exactly at the goal |
| RepeatedAStar.GoForward | src/strategy/search/repeated_a_star.rs:53-67 | a step extends the path by the neighbour and recomputes the heuristic there |
| RepeatedAStar.GoForwardCostMonotone | src/strategy/search/repeated_a_star.rs:53-67 | a step never lowers the total cost (the heuristic is consistent) |
| RepeatedAStar.CmpInformedTotal | src/strategy/search/repeated_a_star.rs:70-94 | the queue's comparison is a total order |
| RepeatedAStar.CmpInformedPriority | src/strategy/search/repeated_a_star.rs:70-88 | the greatest node has the least total cost, then the least heuristic |
| RepeatedAStar.MaxIndex | src/strategy/search/repeated_a_star.rs:118-120 | picks a node no other node compares above |
| RepeatedAStar.SingleSearch | src/strategy/search/repeated_a_star.rs:97-143 | a found path runs from the start to the goal along open directions and is recorded; visited paths stay recorded, within the cutoff, and only grow; not found means the goal was never reached |
| RepeatedAStar.SearchStep | src/strategy/search/repeated_a_star.rs:118-140 | one pop and expansion keeps the visited map recorded and queued nodes valid, and makes progress |
| RepeatedAStar.Pop | src/strategy/search/repeated_a_star.rs:119-120 | removes one greatest node and keeps the rest |
| RepeatedAStar.QueueRecorded | src/strategy/search/repeated_a_star.rs:106-116 | seeds the queue from the recorded paths, including the goal's if recorded |
| RepeatedAStar.Expand | src/strategy/search/repeated_a_star.rs:127-139 | every open direction of the popped node is covered: recorded or beyond the cutoff |
| RepeatedAStar.Consider | src/strategy/search/repeated_a_star.rs:131-139 | one direction is recorded and queued unless it was visited or lies beyond the cutoff |
| RepeatedAStar.RecordKeepsExpanding | src/strategy/search/repeated_a_star.rs:133-138 | recording a new path keeps the expansion invariant |
| RepeatedAStar.RecordStep | src/strategy/search/repeated_a_star.rs:59-64 | one open step extends a recorded path from the start |
| RepeatedAStar.MaxLength | src/strategy/search/repeated_a_star.rs:200-207 | the longest result's length, attained by some result |
| RepeatedAStar.SortedByLength | src/strategy/search/repeated_a_star.rs:212-213 | sorting and reversing the results orders them by non-decreasing length, as a permutation |
| RepeatedAStar.PrefixIsShortest | src/strategy/search/repeated_a_star.rs:212-214 | a prefix of length-ordered results is ordered and no longer than any result left out |
| RepeatedAStar.ShortestResultsKeepsShortest | src/strategy/search/repeated_a_star.rs:211-215 | keeps min(n, count) results, ordered by length, none longer than any dropped |
| RepeatedAStar.StartNodes | src/strategy/search/repeated_a_star.rs:165-174 | one start node per source |
| RepeatedAStar.SortedSources | src/strategy/search/repeated_a_star.rs:175-176 | the sorted start nodes are a permutation in non-decreasing total cost |
| RepeatedAStar.Search | src/strategy/search/repeated_a_star.rs:150-216 | at most the maximum number of results, each reaching the target from a source within the cutoff, shortest first and no longer than any found result left out; sources are tried nearest first |
| RepeatedAStar.EverySourceConsidered | src/strategy/search/repeated_a_star.rs:178-181 | when the loop ends, every source was tried or lies beyond the final cost bound |
| RepeatedAStar.TrySource | src/strategy/search/repeated_a_star.rs:178-208 | one source step keeps the search's progress invariant |
| RepeatedAStar.SearchSource | src/strategy/search/repeated_a_star.rs:183-191 | searching back from the target records paths within the cutoff and adds at most one result reaching the target |
| RepeatedAStar.SkipKeepsProgress | src/strategy/search/repeated_a_star.rs:179-181 | skipping a source beyond the cost bound keeps progress |
| RepeatedAStar.VisitedWithinCutoff | src/strategy/search/repeated_a_star.rs:133-136 | recorded paths never exceed the cutoff |
| RepeatedAStar.ResultReaches | src/strategy/search/repeated_a_star.rs:183-191 | a path found from the target back to a source, reversed, reaches the target |
| RepeatedAStar.SearchKeepsProgress | src/strategy/search/repeated_a_star.rs:183-208 | a searched source keeps progress |
| RepeatedAStar.ProgressStep | src/strategy/search/repeated_a_star.rs:175-181 | sources are tried in non-decreasing distance, within the current cost |
| SearchResults.Start | src/strategy/search/repeated_a_star.rs:108-112 | a one-cell result starts and ends at the cell and has no orders |
| SearchResults.AddStep | src/strategy/search/repeated_a_star.rs:63-66 | a step keeps the first position, ends at the new one, and adds one order |
| SearchResults.ReverseResult | src/strategy/search/repeated_a_star.rs:190 | the reversal swaps the ends, keeps the length, and lists the positions backwards |
| SearchResults.ReverseResultInvolution | src/strategy/search/repeated_a_star.rs:190 | reversing twice gives the original result |
| SearchResults.ReversedPathIsWalk | src/strategy/search/repeated_a_star.rs:183-190 | a path along open directions, reversed, is a walk of adjacent cells |
| SearchResults.DirectionTowards | src/strategy/mod.rs:53 | gives a direction leading to the cell, or none iff no direction does |
| SearchResults.FirstOrder | src/strategy/mod.rs:51-54 | the order starts at the first position and targets the second |
| SearchResults.WalkHasFirstOrder | src/strategy/mod.rs:51-54 | every walk of two or more cells has a first order |
| SearchResults.CmpStepsFlip | src/strategy/search/repeated_a_star.rs:27 | the position-list comparison is antisymmetric and equal only on equal lists |
| SearchResults.CmpStepsTransitive | src/strategy/search/repeated_a_star.rs:27 | the position-list comparison is transitive |
| SearchResults.CmpSearchResultTotal | src/strategy/search/repeated_a_star.rs:19-35 | the result comparison is a total order |
| SearchResults.CmpSearchResultLength | src/strategy/search/repeated_a_star.rs:19-28 | a shorter result compares greater |
| Orderings.CmpInt | src/strategy/search/repeated_a_star.rs:24-26 | less, equal or greater exactly as the integers compare |
| Orderings.ThenWith | src/strategy/search/repeated_a_star.rs:27 | the second comparison decides only a tie in the first |
| Orderings.Sort | src/strategy/search/repeated_a_star.rs:175 | the sort is a permutation |
| Orderings.SortAscending | src/strategy/search/repeated_a_star.rs:175-212 | under a total order the sort is ascending |
| Orderings.Reversed | src/strategy/search/repeated_a_star.rs:176 | lists the elements backwards |
| Orderings.ReversedMultiset | src/strategy/search/repeated_a_star.rs:176 | reversal is a permutation |
| Orderings.ReversedDescending | src/strategy/search/repeated_a_star.rs:176-213 | an ascending list reversed is descending |
| Reach.BlankMaskFromRadius | src/reach.rs:11-25 | the nested loop computes the disc of offsets |
| Reach.MaskRowMembers | src/reach.rs:15-22 | one row holds exactly the offsets of the disc in that row, left to right |
| Reach.MaskRowsMembers | src/reach.rs:15-22 | the rows hold exactly the disc's offsets, in row-major order |
| Reach.BlankMaskMembers | src/reach.rs:11-25 | an offset is in the mask iff it lies within the squared radius |
| Reach.BlankMaskRowMajor | src/reach.rs:15-21 | the mask is in strict row-major order, so free of duplicates |
| Reach.BlankMaskSymmetric | src/reach.rs:15-21 | the mask is symmetric in both axes |
| Reach.BlankMaskExamples | src/reach.rs:59-81 | radii 0, 1 and 2 give a point, a plus sign and a 3x3 square |
| Reach.BlankMaskDiamond | src/reach.rs:82-97 | squared radius 4 gives the 13-cell diamond |
| Reach.WorldMask | src/reach.rs:27-40 | the placed mask holds exactly the wrapped offsets, lies in the grid, and is no larger than the mask |
| Reach.WorldMaskHoldsCentre | src/reach.rs:27-40 | the placed mask holds its centre |
| Reach.WorldMaskIsPlaceAll | src/reach.rs:32-39 | placing is a union over the offsets, in any grouping |
| Reach.WorldMaskPoint | src/reach.rs:128-140 | the point mask places one cell |
| Reach.WorldMaskDiamond | src/reach.rs:142-156 | the diamond placed inside the grid covers its 13 cells |
| Reach.WorldMaskWrapped | src/reach.rs:158-167 | the plus sign placed at an edge wraps around |
| Utilities.TrimStartProperties | src/utilities.rs:72 | trimming the start removes exactly a whitespace prefix and leaves no leading whitespace |
| Utilities.TrimEndProperties | src/utilities.rs:72 | trimming the end removes exactly a whitespace suffix and leaves no trailing whitespace |
| Utilities.TrimProperties | src/utilities.rs:72 | a string is its whitespace prefix, the trimmed text and its whitespace suffix |
| Utilities.TrimIdempotent | src/utilities.rs:72 | trimmed text has no whitespace at either end, and trimming again changes nothing |
| Utilities.SplitJoin | src/utilities.rs:75 | joining the pieces of a split gives the text back |
| Utilities.JoinSplit | src/utilities.rs:75 | splitting a join of separator-free pieces gives the pieces back |
| Utilities.Lines | src/utilities.rs:69-70 | no line contains a newline |
| Utilities.NonEmpty | src/utilities.rs:71 | keeps exactly the non-empty lines, in order |
| Utilities.TrimLinesLines | src/utilities.rs:66-76 | the output's lines are the kept lines, one per non-empty input line, each trimmed |
| Utilities.LinesJoin | src/utilities.rs:70 | the lines of joined pieces are the pieces |
| Utilities.TrimLinesOfJoin | src/utilities.rs:68-76 | trimming joined lines drops the empty ones and trims the rest |
| Utilities.TrimLinesExample | src/utilities.rs:120-131 | the indented example trims to "a\nb\nc" |
| Utilities.BlankLineSurvives | src/utilities.rs:69-73 | a line of blanks is kept as an empty line |
| Utilities.Indexer.constructor | src/utilities.rs:82-84 | a new indexer starts at 0 |
| Utilities.Indexer.Next | src/utilities.rs:88-92 | returns the current index and advances it by one |
| Utilities.FirstIndices | src/utilities.rs:21-22 | the indexer hands out 0, 1, 2, ... |
| Utilities.RowCells | src/utilities.rs:22-26 | each character of a line is paired with its row and column |
| Utilities.CellsAtTheirPositions | src/utilities.rs:20-27 | the cells of the text are exactly its characters at their positions |
| Utilities.FoldCollectsFacts | src/utilities.rs:29-63 | the fold collects the ants, hills, food and water of the cells, in order |
| Utilities.WorldOfTrimmedLines | src/utilities.rs:17-27 | a text of trimmed, non-empty lines parses to the fold of its cells |
| Utilities.WorldExample | src/utilities.rs:99-118 | the example map parses to its ants, hills, food and water |
| Utilities.WorldTestMap | src/utilities.rs:99-118 | the test map parses as expected |

## Left out

- CrashFilter.ResolveOrders: requires the submitted orders to come from pairwise distinct ants. The source does not check this, and with two orders from one ant its release loop can run forever (`CrashFilterScenarios.DuplicateSourceNeverStops`). A terminating method cannot model that. `CrashFilter.AntCrashFilter.GetOrders` and `CrashFilter.ResolveIsCollisionFree` carry the same requirement.
- RepeatedAStar.Search: the total cost and the cutoff are 16-bit unsigned values in the source; the model uses unbounded integers, so it does not capture wrap-around of costs beyond 65535.
- Reach.BlankMaskFromRadius: the source derives the mask's reach from the squared radius with a floating-point square root and rounding. The model takes the reach as a parameter that must cover the radius, so it says nothing about the rounding.
- HashSet, HashMap and BinaryHeap iteration order is left open. Searches take their sources as sets. `MultiSearch.GreedilyChoose` scans results in any order with the same multiset. `RepeatedAStar.Pop` takes any greatest node.
- Searches and strategies passed to other strategies are function parameters. The composite strategy's constructor with its concrete strategies is not modelled (gather food, random walk, hill raiser and combat are outside this model, except the hill raiser's no-target case).
- World-step objects are not trait objects. Each decorator wraps a fixed `BasicWorldStep`, so decorators are not stacked on one another.
- The shared data types (position, order, direction, tile, world state and its builders, search result) come from an API crate that is not part of this model. They are defined here from their use in the core files.
- Positions outside the grid are not considered where the source indexes the grid with them.
- Utilities.TrimLinesExample: the test's indentation of 17 spaces is shortened to 3. Trimming removes leading whitespace of any length (`Utilities.TrimStartProperties`).
- Utilities.WorldTestMap: starts from the test map with its indentation already removed, and states the result of `world` on those lines.
- The other breadth-first scenario tests are not restated as lemmas. These are the quota, walled-in and wrap-around tests in search/mod.rs:85-200 and search.rs:79-215. The general contracts of `Bfs.Search` and `NearestOrders.NearestOrders` state the properties they check, but not their exact result lists.
- Unit tests that run a concrete search or concrete strategies over a parsed map are not modelled. The composite test (composite_strategy.rs:49-72) needs the gather-food and other concrete strategies. The multi-target tests (multisearch/mod.rs:120-158) and the hill-raiser tests (hill_raiser.rs:48-108) need the concrete breadth-first search on a `BasicWorldStep`, which the model takes as a function parameter. The A* test at repeated_a_star.rs:224-248 searches a full map.
- The bot's entry points, the game I/O loop and the random direction choice are not modelled. These are lib.rs, main.rs and world_sim.rs.

## Findings

| source | as written | input that shows it | evidently intended | confidence | as-written member | corrected member |
|---|---|---|---|---|---|---|
| src/ant_crash_filter.rs:40-53 | the target of a South order is `row + 1` and of an East order `col + 1`, with no wrap-around (North and West do wrap) | a 2x2 grid with ants at (0,0) and (1,0), and the single order (1,0) South: its real target (0,0) holds a stationary ant, yet the order is kept because the computed target (2,0) is off the grid | every target wraps around the torus, so the order is dropped | not executed | EarlyCrashFilter.AsWrittenMissesWrapAroundCollision | EarlyCrashFilter.KeptOrdersAreCollisionFree |
