# pac-ghost: a verified model of the game rules

This project models the core of pac-ghost, a Pac-Man-style arcade game in
which ghosts roam a procedurally generated maze. One ghost is the player's and
the others are driven by an AI. The ghosts eat spawning "PacMan" pickups to
gain levels, and on contact a higher-level ghost eliminates a lower one. The
model covers the parts of the game with algorithmic content:

- **Maze** (`maze_grid.dfy`, `maze.dfy`, class `Mazes.Maze`).
  - The square grid of walls (0), paths (1) and tunnels (2) is a `seq<seq<int>>` field that the generation methods reassign cell by cell.
  - Generation is depth-first backtracking on the stride-2 lattice around the centre, with an explicit stack. A backfill loop then converts interior walls next to a path until at least 60% of the cells are paths (the integer test `walkable * 5 >= total * 3`). Finally the four edge-midpoint warp tunnels are placed.
  - Point queries: walkability, warp destination and a random path cell.
  - Ghost maps `rank`/`parent` witness that every path cell is joined to the centre. They also give the backtracking loop its termination measure: the set of cells not yet ranked, then the stack length.
- **A\* pathfinder** (`pathfinding.dfy`).
  - The search state (open list, closed set, g and f scores, parents) is a `Search` value.
  - The heap is a sequence, and a pop takes its least entry in the tuple order (f, g, x, y).
  - `AStarPath` is the search as a function. The method `AStar.FindPath` runs the loop with its iteration cap of `size * size` and is proved equal to it.
  - An invariant (`SearchInv`) keeps every parent link pointing to a closed, adjacent cell of strictly smaller g score. Path reconstruction therefore terminates and yields a walk.
- **Ghost entity** (`ghost.dfy`, class `Ghosts.Ghost`).
  - The logical fields: grid cell, target pixel, level, alive and dying flags, direction.
  - The movement contract `move`; `level_up`, `start_death` and `collides_with`; the colour shading functions.
  - "The pixel position has reached its target" is the boolean field `settled`.
- **Pickups** (`pacman.dfy`): a record of cell and `active` flag.
- **Pickup spawn counter** (`hud.dfy`, class `Hud.PacManTimer`): the accumulating timer and the count bounded by 4.
- **Ghost AI** (`ghost_ai.dfy`, class `GhostAIs.GhostAI`).
  - Perception of pickups and weaker ghosts within the vision radius that A\* can reach.
  - Target priority, path planning, random wandering and path following, with the clock reading and the random draws as parameters.
- **Game rules** (`game.dfy`, class `Games.Game`).
  - Collision resolution is two loops over the ghosts, and each loop is proved equal to a recursive function over value snapshots of the ghosts. Pickups are eaten with level-ups and count decrements. Ghosts then fight, where the higher level wins and equal levels both die.
  - The end-of-tick transitions to game over or spectating.
  - Placing the player and nine AI ghosts on distinct path cells at the start of a game.
  - Spawning a pickup on a free cell.

Constants are those of `game/constants.py`, except the random-move interval, which `GhostAI.__init__` sets in `game/ai/ghost_ai.py`:

| constant | value |
|---|---|
| maze side | 25..35 |
| tile size | 32 |
| AI decision interval | 200 ms |
| vision radius | 8 |
| spawn time | 7000 ms |
| maximum pickups | 4 |
| random-move interval | 1000 ms |

The source compares `walkable / total < 0.6` in floating point. For the grid sizes involved this test is equivalent to the integer test the model uses.

## Model

| member | source | states |
|---|---|---|
| Grid.Step | game/ai/pathfinding.py:62-63 | the neighbour in each of the four scanned directions is one cardinal step away |
| Grid.ManhattanIsMetric | game/ai/ghost_ai.py:183-185 | the Manhattan distance is non-negative, symmetric, zero exactly on equal positions, and obeys the triangle inequality |
| Grid.AdjacentIsCardinalStep | game/ai/pathfinding.py:62-63 | two positions are adjacent exactly when they differ by one of the four unit steps |
| Grid.Clamp | game/entities/ghost.py:169-170 | `max(lo, min(hi, v))` lies in [lo, hi]; it is v inside the range and the nearer bound outside it |
| Grid.Sign | game/ai/ghost_ai.py:135-136 | the normalised axis is 1, 0 or -1 exactly as the offset is positive, zero or negative |
| Grid.UnitStep | game/entities/ghost.py:169-174 | the step move tries has x = sign(dx) and y = 0 when dx is non-zero, otherwise y = sign(dy); it is no step or one cardinal step |
| MazeGrid.Set | game/maze.py:52-55 | a cell assignment changes that cell and no other, and keeps the grid's shape |
| MazeGrid.AllWalls | game/maze.py:26 | the initial grid is n x n with every cell a wall |
| MazeGrid.CountUpdate | game/maze.py:80-81 | replacing one cell changes the number of cells holding v by the difference of the two indicators, so `walkable_count += 1` tracks one wall turned path |
| MazeGrid.InteriorFullCount | game/maze.py:68-70 | with every interior cell a path there are at least (n-2)^2 path cells, more than 60% for n >= 25 |
| MazeGrid.WalkableCovers | game/maze.py:83-93 | when every path cell stays walkable, the walkable cells are at least as many as the path cells were |
| MazeGrid.FreePathCell | game/game.py:177-180 | with more path cells than occupied positions, some path cell is unoccupied, so the placement retry loop can succeed |
| MazeGrid.CountPositive | game/maze.py:154-160 | a positive number of path cells means some cell holds a path |
| Mazes.WalkFromCentre | game/maze.py:37-61 | every ranked cell, in particular every path cell, is joined to the centre by a walk of cardinal steps through walkable cells |
| Mazes.SetPathRooted | game/maze.py:52-55 | turning a cell next to a ranked cell into a path keeps the grid binary and every path cell joined to the centre, and ranks exactly that cell more |
| Mazes.UnvisitedNeighbours | game/maze.py:41-45 | the candidate list holds exactly the lattice neighbours that are in bounds and still walls, each with the wall cell between |
| Mazes.CarveGeometry | game/maze.py:44-55 | a candidate's lattice cell is in bounds and a wall, and its wall cell is in bounds and adjacent to both the current cell and the candidate |
| Mazes.CarveTowards | game/maze.py:52-55 | carving sets exactly the wall cell and the lattice cell to PATH, keeps the grid binary and rooted, and ranks the previously unranked lattice cell |
| Mazes.SetPath | game/maze.py:80 | one cell next to a ranked cell becomes a path; the grid stays binary and rooted with that cell ranked |
| Mazes.StartGrid | game/maze.py:26-31 | generation starts from all walls with only the centre a path, which is trivially rooted |
| Mazes.StackPush | game/maze.py:58 | pushing a ranked cell keeps every stacked cell ranked |
| Mazes.BacktrackStep | game/maze.py:38-61 | one iteration either pops the top cell when it has no unvisited lattice neighbour, leaving the grid as it was, or carves exactly the wall cell and one unvisited lattice neighbour to PATH and pushes that neighbour; it keeps the loop state (binary, rooted grid; every stacked cell ranked, so in bounds and a path) and either shrinks the set of unranked cells or shortens the stack |
| Mazes.CarvePassages | game/maze.py:30-61 | the backtracking loop terminates with a binary grid, the centre a path and every path cell joined to the centre |
| Mazes.PathNeighbour | game/maze.py:73-79 | a positive `adjacent_paths` means a path cell one step away |
| Mazes.StraightWalk | game/maze.py:68-81 | walking in a straight interior line from a path to a wall meets a convertible wall |
| Mazes.ExistsConvertible | game/maze.py:68-81 | below the 60% threshold some interior wall has a path neighbour, so the backfill can always progress |
| Mazes.PickConvertible | game/maze.py:70-79 | the cell drawn for conversion is an interior wall with a path neighbour |
| Mazes.FilledOneMore | game/maze.py:79-80 | filling one more interior wall keeps "every changed cell was an interior wall and is now a path" |
| Mazes.BackfillStep | game/maze.py:70-81 | one conversion raises `walkable_count` by exactly one, keeps it equal to the number of path cells, changes only an interior wall and shrinks the unranked set |
| Mazes.Backfill | game/maze.py:63-81 | the backfill terminates with at least 60% path cells; every changed cell was an interior wall and became a path, and connectivity is kept |
| Mazes.PlaceTunnels | game/maze.py:83-93 | exactly the four edge-midpoint cells become tunnels and no other cell changes; at most four path cells are lost |
| Mazes.TunnelsKeepGeneration | game/maze.py:83-93 | after tunnel placement there are exactly four tunnels, every path cell is still joined to the centre, at least 60% of the cells are walkable and every cell holds 0, 1 or 2 |
| Mazes.PathShare | game/maze.py:64-68 | 60% of a side-25-or-more grid, less four tunnels, is at least 371 path cells |
| Mazes.Maze.ManyPathCells | game/maze.py:6-17 | a generated maze has at least 371 path cells |
| Mazes.Maze.constructor | game/maze.py:6-17 | a new maze of the given side is generated: at least 60% walkable, exactly the four tunnels, every path cell joined to the centre |
| Mazes.Maze.GenerateMaze | game/maze.py:23-81 | generation leaves a binary grid with every path cell joined to the centre and at least 60% path cells |
| Mazes.Maze.CreateWarpTunnels | game/maze.py:83-93 | exactly the four edge-midpoint cells are set to 2 and every other cell keeps its value |
| Mazes.Maze.IsWalkable | game/maze.py:119-126 | out of bounds is never walkable; in bounds a cell is walkable exactly when it holds a path or a tunnel |
| Mazes.Maze.WarpDestination | game/maze.py:128-150 | the identity off the tunnel cells; a tunnel cell maps to a different tunnel cell in the same row or column; in-bounds positions stay in bounds |
| Mazes.Maze.WarpInvolution | game/maze.py:128-150 | warping twice returns to the starting position |
| Mazes.Maze.WarpKeepsWalkable | game/maze.py:128-150 | with the tunnels in place, warping from a walkable position lands on a walkable position |
| Mazes.Maze.RandomWalkablePosition | game/maze.py:152-160 | the result is a cell holding exactly PATH (never a tunnel) when one exists, and the centre otherwise |
| Pathfinding.Heuristic | game/ai/pathfinding.py:90-92 | the heuristic is non-negative, symmetric and zero exactly when the positions coincide |
| Pathfinding.HeuristicAdmissible | game/ai/pathfinding.py:90-92 | the heuristic never exceeds the number of steps of a walk between the two positions |
| Pathfinding.FirstMin | game/ai/pathfinding.py:51 | the popped entry is least in the tuple order among the open entries |
| Pathfinding.InitialInv | game/ai/pathfinding.py:29-41 | the initial state (start open with g = 0, no parents) satisfies the search invariant |
| Pathfinding.ClosedInv | game/ai/pathfinding.py:51-59 | popping an entry and closing its position keeps the invariant |
| Pathfinding.RelaxedParents | game/ai/pathfinding.py:77-81 | after a relaxation every scored position other than start has a closed, adjacent parent with a strictly smaller g score; start never gains a parent |
| Pathfinding.RelaxedOpen | game/ai/pathfinding.py:83-85 | after a relaxation the open entries are scored, carry a g no better than the recorded one, and have distinct positions |
| Pathfinding.RelaxedInv | game/ai/pathfinding.py:76-85 | a relaxation keeps the whole search invariant |
| Pathfinding.ExpandedInv | game/ai/pathfinding.py:62-85 | expanding a closed position keeps the invariant, the closed set and that position's own g score |
| Pathfinding.ParentChain | game/ai/pathfinding.py:94-99 | the parent chain from a scored cell ends at start, each link is one step and every cell on it is walkable; it terminates because g falls along it |
| Pathfinding.ReversedChainIsWalk | game/ai/pathfinding.py:101-102 | reversing the collected chain gives a walk |
| Pathfinding.PathTo | game/ai/pathfinding.py:94-103 | the reconstructed path is a walk from start to the given cell through walkable cells |
| Pathfinding.AdvanceInv | game/ai/pathfinding.py:47-85 | an iteration that does not reach the end keeps the invariant |
| Pathfinding.SearchFrom | game/ai/pathfinding.py:47-88 | the capped loop stops, and any path it returns is a walk from start to end through walkable cells |
| Pathfinding.AStarPath | game/ai/pathfinding.py:8-88 | `[]` when an endpoint is not walkable, `[start]` when the endpoints coincide; any other non-empty result is a walk from start to end through walkable cells, at least as long as the Manhattan distance |
| Pathfinding.Relax | game/ai/pathfinding.py:66-85 | one neighbour's relaxation computes the specified relaxation step |
| Pathfinding.Expand | game/ai/pathfinding.py:62-85 | the neighbour loop relaxes the four neighbours in the order (0,1), (1,0), (0,-1), (-1,0) |
| Pathfinding.ReconstructPath | game/ai/pathfinding.py:94-103 | the append-then-reverse loop yields exactly the path to the given cell |
| Pathfinding.AStar.constructor | game/ai/pathfinding.py:5-6 | the pathfinder holds the maze it searches |
| Pathfinding.AStar.FindPath | game/ai/pathfinding.py:8-88 | the imperative search, with its heap, closed set, score maps and iteration cap, returns exactly `AStarPath` |
| PacMans.NewPacMan | game/entities/pacman.py:7-12 | a new pickup is active on its cell |
| PacMans.Collect | game/entities/pacman.py:91-93 | a collected pickup is inactive and stays on its cell |
| Ghosts.LightenChannel | game/entities/ghost.py:149-152 | `min(c + 50, 255)` stays in [0, 255], is at least c, and is c + 50 or 255 |
| Ghosts.DarkenChannel | game/entities/ghost.py:154-157 | `max(c - 50, 0)` stays in [0, 255], is at most c, and is c - 50 or 0 |
| Ghosts.LightenColour | game/entities/ghost.py:149-152 | the highlight is a colour no darker than the original in any channel |
| Ghosts.DarkenColour | game/entities/ghost.py:154-157 | the shadow is a colour no lighter than the original in any channel |
| Ghosts.ShadeRoundTrip | game/entities/ghost.py:149-157 | darkening undoes lightening on uncapped channels, and the converse holds on unfloored ones |
| Ghosts.Ghost.constructor | game/entities/ghost.py:8-24 | a new ghost is on its cell, at level 1, alive, not dying, not moving, with its pixel position on its target |
| Ghosts.Ghost.LevelUp | game/entities/ghost.py:159-162 | the level rises by exactly one |
| Ghosts.Ghost.StartDeath | game/entities/ghost.py:242-247 | the ghost is dying |
| Ghosts.Ghost.Move | game/entities/ghost.py:164-195 | succeeds exactly when settled and the clamped step lands on a walkable cell; then direction is the step, the cell is the warp destination of the step's cell, and the target pixel follows the cell; on failure nothing changes |
| Ghosts.Ghost.Update | game/entities/ghost.py:197-240 | a dead ghost is untouched; a dying ghost dies when its blink time is over; a live ghost stays alive and becomes settled when it arrives |
| Ghosts.Ghost.CollisionIsSharingACell | game/entities/ghost.py:249-252 | collision is exactly sharing a grid cell, hence reflexive and symmetric |
| Hud.PacManTimer.constructor | game/ui/hud.py:31-37 | a new timer starts at 0 with count 0 |
| Hud.PacManTimer.Update | game/ui/hud.py:39-48 | fires exactly when the accumulated time reaches the spawn time and then restarts from 0; for dt >= 0 the timer stays in [0, spawn time) |
| Hud.PacManTimer.IncrementCount | game/ui/hud.py:50-55 | succeeds and adds one exactly when the count is below 4, otherwise changes nothing; the count stays in [0, 4] |
| Hud.PacManTimer.DecrementCount | game/ui/hud.py:57-62 | succeeds and subtracts one exactly when the count is positive, otherwise changes nothing; the count stays in [0, 4] |
| Hud.CountAfterDecrements | game/ui/hud.py:57-62 | k decrements from c leave c - k, or 0 once the count is exhausted |
| GhostAIs.PickupCandidatesSound | game/ai/ghost_ai.py:37-48 | the pickup candidates are exactly the active pickups within the vision radius that A\* reaches, each with its Manhattan distance |
| GhostAIs.GhostCandidates | game/ai/ghost_ai.py:51-64 | every ghost candidate comes from the ghost list |
| GhostAIs.GhostCandidatesSound | game/ai/ghost_ai.py:51-64 | the ghost candidates are exactly the other live, non-dying ghosts of strictly lower level within the radius that A\* reaches, each with its distance |
| GhostAIs.Nearest | game/ai/ghost_ai.py:71-72 | the head of a stable sort by distance: a candidate at the least distance, with no earlier candidate at that distance |
| GhostAIs.Decision | game/ai/ghost_ai.py:66-77 | a ghost target is one of the listed ghosts |
| GhostAIs.DecisionIsNearest | game/ai/ghost_ai.py:66-77 | no target exactly when nothing is visible; a nearest visible pickup when there is one; a nearest visible weaker ghost only when no pickup is visible |
| GhostAIs.Openings | game/ai/ghost_ai.py:161-166 | one walkability entry per scanned direction |
| GhostAIs.OpeningAt | game/ai/ghost_ai.py:161-166 | entry d is the walkability of the neighbour in direction d, which is a cardinal step away |
| GhostAIs.MovesOfSound | game/ai/ghost_ai.py:160-166 | the collected moves are exactly the open directions, in scan order |
| GhostAIs.PossibleMovesWalkable | game/ai/ghost_ai.py:160-166 | every possible move is a cardinal step onto a walkable cell |
| GhostAIs.PossibleMovesComplete | game/ai/ghost_ai.py:160-166 | every direction leading to a walkable cell is a possible move |
| GhostAIs.GatherMoves | game/ai/ghost_ai.py:159-166 | the direction loop collects exactly the possible moves |
| GhostAIs.ForwardMovesSound | game/ai/ghost_ai.py:171 | the forward moves are exactly the possible moves other than the reversal of the current direction |
| GhostAIs.ChosenMove | game/ai/ghost_ai.py:173-176 | the chosen move is a possible move, and not the reversal when the forward draw applies and forward moves exist |
| GhostAIs.RandomPathBlocked | game/ai/ghost_ai.py:168-181 | with no walkable neighbour the path is left unchanged |
| GhostAIs.RandomPathMoves | game/ai/ghost_ai.py:168-181 | with a walkable neighbour the path becomes a single walkable neighbouring cell |
| GhostAIs.RandomPathOnto | game/ai/ghost_ai.py:168-181 | from any non-empty list of cardinal moves onto walkable cells, the path becomes one walkable neighbouring cell |
| GhostAIs.RandomPathAvoidsReversal | game/ai/ghost_ai.py:171-174 | under the forward draw, with a walkable non-reversing neighbour, the ghost does not turn back |
| GhostAIs.PlanTowardsTarget | game/ai/ghost_ai.py:80-87 | the planned path to a chosen target, with its leading current cell dropped, is a walk over walkable cells starting beside the ghost and ending on the target; it is empty only when the ghost stands on the target |
| GhostAIs.NextCellOfNeighbour | game/ai/ghost_ai.py:125-136 | the normalised step towards an adjacent waypoint lands on it |
| GhostAIs.FollowKeepsPlan | game/ai/ghost_ai.py:116-153 | following a walk that starts beside the ghost moves it onto the head and leaves a walk starting beside it |
| GhostAIs.GhostAI.constructor | game/ai/ghost_ai.py:7-16 | a new controller has no path, no target and both clocks at 0 |
| GhostAIs.GhostAI.HasLineOfSight | game/ai/ghost_ai.py:97-114 | true exactly when A\* finds a path whose length is the Manhattan distance, which the source's tolerance of one extra step admits; then both ends are walkable |
| GhostAIs.GhostAI.FollowPath | game/ai/ghost_ai.py:116-153 | no-op on an empty path; when the normalised step is walkable and the ghost is settled, the ghost moves there through any warp, faces the step, targets the pixel of its new cell, and the path loses exactly its head; otherwise the path is cleared and the ghost is unchanged |
| GhostAIs.GhostAI.RandomMovement | game/ai/ghost_ai.py:155-181 | the path becomes the chosen random step from the walkable moves, or stays as it was when there is none |
| GhostAIs.GhostAI.ScanPickups | game/ai/ghost_ai.py:36-48 | the scan loop gathers exactly the pickup candidates |
| GhostAIs.GhostAI.ScanGhosts | game/ai/ghost_ai.py:50-64 | the scan loop gathers exactly the ghost candidates |
| GhostAIs.GhostAI.ChooseTarget | game/ai/ghost_ai.py:66-77 | the chosen target is the decision: nearest pickup, else nearest weaker ghost, else none |
| GhostAIs.GhostAI.Decide | game/ai/ghost_ai.py:27-92 | the target becomes the decision when there is one; the random-move clock moves only when there is no target and the random interval has passed; the path is the plan |
| GhostAIs.GhostAI.Update | game/ai/ghost_ai.py:18-95 | before the decision interval has passed, target and both clocks are unchanged and only the path is followed; otherwise a decision is taken and the intended path followed one step; when the ghost advances it lands on the step's cell through any warp, faces the step and targets that cell's pixel |
| GhostAIs.SightTolerance | game/ai/ghost_ai.py:106-114 | on a grid walk, "length at most distance + 1" holds exactly when the length equals the distance |
| GhostAIs.WalkParity | game/ai/ghost_ai.py:106-114 | a grid walk's number of steps has the parity of the Manhattan distance between its ends and is at least that distance |
| Games.PickupPassRaises | game/game.py:213-225 | the pickup pass moves nothing, changes no alive or dying flag, only raises levels and only collects pickups |
| Games.EatFromCollects | game/game.py:217-225 | the inner loop for one ghost collects exactly the active pickups from the loop position on that lie on the ghost's cell |
| Games.PickupsFromCollect | game/game.py:213-225 | the outer loop from ghost i collects exactly the active pickups on which some later ghost in play stands |
| Games.PickupPassCollects | game/game.py:213-225 | the pickup pass collects exactly the active pickups on the cell of some ghost in play, and keeps the list's length |
| Games.PickupPassCounts | game/game.py:213-225 | every pickup eaten raises the level sum by one and takes one off the spawn count, which stops at 0 |
| Games.EatFromLevels | game/game.py:217-225 | ghost i's inner loop from pickup j raises ghost i's level by the number of active pickups on its cell from j on, and no other ghost's level |
| Games.PickupPassLevels | game/game.py:213-225 | each ghost's own gain: a ghost in play that is the first ghost in play on its cell gains one level per active pickup on that cell, and every other ghost keeps its level |
| Games.PickupPassKeepsCount | game/game.py:213-225 | a spawn count equal to the active pickups before the pass is still equal to them after it |
| Games.ClashUpToFrom | game/game.py:239-241 | running the inner ghost loop in two parts is running it once |
| Games.ClashPassSeparates | game/game.py:235-262 | after the ghost pass no two ghosts in play share a cell |
| Games.ClashPassJustified | game/game.py:235-262 | a ghost the pass takes out of play shared its cell with another ghost in play of at least its level |
| Games.ClashFromEliminates | game/game.py:239-262 | in ghost i's inner loop every later ghost in play on its cell of at most its level leaves play, and ghost i leaves play when a later one has at least its level, whether or not ghost i itself is still in play by then |
| Games.ClashFromOnlyWeaker | game/game.py:239-262 | the later ghosts ghost i's inner loop takes out of play are all on its cell and of at most its level |
| Games.ClashPassEliminates | game/game.py:235-262 | a ghost in play leaves play in the ghost pass exactly when another ghost in play shares its cell with at least its level: the lower of two ghosts and both of a tied pair always leave |
| Games.ClashPassWeakens | game/game.py:235-262 | the ghost pass changes no cell, level or alive flag and only sets dying flags |
| Games.DyingGhostStillEliminates | game/game.py:235-241 | ghost1's status is checked once per outer iteration, so of three ghosts of levels 2, 2 and 1 on one cell all three leave play |
| Games.InPlayCountAtMostOne | game/game.py:117-118 | at most one ghost in play exactly when no two distinct ghosts are in play |
| Games.ActivePickups | game/game.py:105 | the filter keeps exactly the active pickups |
| Games.FreeCell | game/game.py:177-180 | the retry loop ends on a path cell not among the occupied cells |
| Games.NewMaze | game/game.py:167 | the new maze has the given side and at least 371 path cells |
| Games.NewPlayer | game/game.py:170-172 | the player is a new blue player ghost on a path cell, at level 1 and in play |
| Games.PlacedExtend | game/game.py:175-184 | appending an AI ghost of the next colour on a free path cell keeps the ghosts on pairwise distinct path cells |
| Games.PlacedDistinct | game/game.py:175-184 | ghosts on pairwise distinct cells are distinct objects |
| Games.LinkedExtend | game/game.py:186-188 | appending a ghost and its controller keeps one controller per AI ghost, in order |
| Games.NewAIGhost | game/game.py:176-183 | a new AI ghost of the given colour stands on a path cell no ghost holds |
| Games.Game.constructor | game/game.py:19-32 | a new game is at the menu with no maze, no ghosts, no controllers and no pickups |
| Games.Game.StartNewGame | game/game.py:164-195 | a new maze; the blue player first and nine AI ghosts, all on pairwise distinct path cells; one controller per AI ghost appended to the existing ones (never cleared); no pickups; a fresh timer; state PLAYING |
| Games.Game.PlaceAIGhosts | game/game.py:175-188 | the AI loop places nine ghosts on distinct free path cells and appends their controllers in order |
| Games.Game.AddAIGhost | game/game.py:176-188 | one iteration appends one placed AI ghost and its controller and keeps the earlier ones |
| Games.Game.SpawnPacMan | game/game.py:197-208 | the new active pickup is appended on a path cell held by no ghost and no pickup |
| Games.Game.EatPickups | game/game.py:217-225 | the inner pickup loop computes the specified inner pass for one ghost |
| Games.Game.EatOne | game/game.py:218-225 | an active pickup on the ghost's cell is collected, the ghost levels up and the count is decremented; otherwise nothing changes |
| Games.Game.PickupCollisions | game/game.py:213-225 | the pickup loops compute the specified pickup pass, skipping ghosts not in play |
| Games.Game.FightLater | game/game.py:239-262 | the inner ghost loop computes the specified inner fight pass for one ghost |
| Games.Game.MeetGhost | game/game.py:240-262 | a later ghost in play on the same cell fights: the strictly higher level survives and the lower starts dying; equal levels both start dying |
| Games.Game.GhostCollisions | game/game.py:235-262 | the ghost loops compute the specified ghost pass, with ghost1's status checked once per outer iteration |
| Games.Game.CheckCollisions | game/game.py:210-267 | the pickup pass, then the ghost pass on the levels it leaves; afterwards no two ghosts in play share a cell |
| Games.Game.EndOfTick | game/game.py:117-128 | with at most one ghost in play the game is over and the player wins exactly when in play; otherwise, in PLAYING, a player out of play switches to SPECTATING |
| Games.Game.Tick | game/game.py:80-128 | menu and game over change nothing (state, verdict, timer, ghosts, pickups and count) and spawn nothing; in play the timer restarts from 0 exactly when it reaches the spawn time, a pickup is spawned (and its cell returned) exactly when it fires below the cap, on a path cell no ghost or pickup held; the ghosts, pickups and count are then those of the pickup pass and the ghost pass run on the board after the spawn with inactive pickups dropped; the end-of-tick checks apply and the game invariant is kept |
| Games.Game.PlayTick | game/game.py:93-128 | the in-play branch: the board is that of the spawn, the filter and the two collision passes; then with at most one ghost in play the game is over and the player wins exactly when in play, otherwise the verdict is unchanged and PLAYING turns to SPECTATING exactly when the player is out of play |
| Games.Game.UpdateBoard | game/game.py:95-115 | the spawn timer, the filter and the collisions in that order: the board becomes the pickup pass and the ghost pass run on the board after the spawn with inactive pickups dropped, the timer and spawn as for `RunSpawnTimer`, and no two ghosts in play share a cell |
| Games.Game.RunSpawnTimer | game/game.py:95-98 | the timer runs for dt and restarts from 0 exactly when it reaches the spawn time; a cell is returned exactly when it fires below the cap, and then the board gains one fresh pickup on that cell and the count rises by one; the cell is a path cell that no ghost and no pickup held; otherwise the board is unchanged |
| Games.Game.PlacePickup | game/game.py:97-98 | the spawn on the board seen before the count moved: exactly one fresh active pickup is appended, on a path cell that no ghost and no pickup held, the ghosts unchanged and the active count one higher |
| Games.Game.ResolveCollisions | game/game.py:104-115 | inactive pickups are dropped, then the pickups, count and ghosts become those of the pickup pass and the ghost pass on the filtered board; the count again equals the active pickups, at most the cap, and no two ghosts in play share a cell |

## Left out

- Rendering, menus, the HUD class, sound and asset loading, the host loop and keyboard input are not modelled. They are drawing, widget and I/O code.
- The clock is a parameter. `GhostAI.Update` and `Decide` take the time `now`, `Tick` takes `dt`, and `Ghost.Update` takes `arrived` and `deathOver` in place of the pixel interpolation and the blink timer.
- Random draws become parameters or nondeterministic choices:
  - the maze side (`Maze.constructor(n)`);
  - the lattice neighbour to carve, the backfill's cell, `get_random_walkable_position` and the placement retries (`:|` choices);
  - the AI ghosts' colours (`StartNewGame(colours)`);
  - the 80% no-reverse draw (`preferForward`) and `random.choice` of a move (`pick`).
- Mazes.Backfill: the source draws random interior cells and skips those it cannot convert. The model draws only convertible cells, because a skipped draw changes no state. It does not model that the source's loop may run for any number of skipped draws.
- Games.FreeCell: the source's retry loops are a single choice among the free path cells. The model requires more path cells than occupied ones, which generation guarantees (at least 371). Without that the source would loop forever.
- Games.Game.Tick: the per-frame `ghost.update`, `pacman.update` and `ai.update` calls between the spawn and the collisions are not composed into the tick, so its board equation, and those of `PlayTick` and `UpdateBoard`, are stated for a tick in which they move nothing. They are modelled on their own as `Ghost.Update` and `GhostAI.Update`.
- Games.NewMaze: passes on that the maze is well formed with at least 371 path cells, not the full `Maze.Generated()` (tunnels placed, every path cell joined to the centre) that `Maze.constructor` proves. The game's own operations need only the count; carrying the connectivity facts through every game method makes their proofs too large.
- Games.Game.StartNewGame: the source resets the pickups, the timer and the state after the AI loop. The model resets them before it. Nothing in between reads them.
- Ghosts.Ghost.Update: the float pixel interpolation, the speed and the animation frames are abstracted to the boolean `settled` and the `arrived` parameter.
- Ghosts.Ghost.LevelUp: the speed recomputed from the level is not modelled, since it only drives the float interpolation.
- Ghosts.Ghost.StartDeath: the death time and the blink state are not modelled. Only the `dying` flag matters to the rules.
- Pathfinding.AStarPath: optimality is not claimed. The loop expands from the g stored in the popped entry, and it does not re-push a position whose score improved. A returned path is only proved to be a valid walk, at least as long as the Manhattan distance.
- Mazes.TunnelsKeepGeneration: connectivity is proved for path cells (every one is joined to the centre), not for the tunnel cells themselves.
- `get_random_color` and `calculate_offset` are presentation helpers and are not modelled.
- `_has_line_of_sight` (`GhostAI.HasLineOfSight`) is modelled, but the decision loop does not call it, as in the source.
- PacMan's pixel position and animation are not modelled. A pickup is a record of its cell and `active` flag, and `collect` is a value update in the game's list.
- Integer widths do not arise. Python integers are unbounded, as Dafny's are.
