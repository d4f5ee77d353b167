# The Maze Runner: a verified model of the maze engine

This project models the game engine of The Maze Runner, a Swing maze game. The player walks a
grid from its top-left cell to its bottom-right goal. Along the way are traps, which end the game;
teleporter pairs; and keys that open locks. Every lock must be open before reaching the goal
completes the level. The maze of level L has 15 + 2L rows and 20 + 2L columns and a countdown of
60 + 30L seconds.

The model is in six modules:

- `Wrappers` holds `Option`.
- `Geometry` holds `Point` and its four neighbours, in the order the path search tries them.
- `Lists` holds `ArrayList.indexOf` and `remove(Object)` as `IndexOf` and `RemoveFirst`, and the index arithmetic that pairs teleporters.
- `Reachability` defines walks and reachability over a wall layout, and the closed-region argument that proves a cell unreachable.
- `Maze` is the panel, `class GamePanel`: its grid is an `array2<bool>`, `true` for a wall, indexed `[y, x]`, and its lists are `seq<Point>` fields. Level set-up, tile placement, the depth-first path check, moves with their tile effects, and the countdown tick are methods.
- `Game` is the window, `class PathfindingGame`: it holds the level counter and the total score, and maps keys to steps. Its methods route the panel's signals: game over restarts, level completion scores and moves on, time-up restarts.

Each move is specified by the pure function `Maze.StepResult`. It gives the outcome signal and the
new `LevelState`. `MovePlayer` is proved equal to it, and the move properties are lemmas about that
function.

In the source, a game over or a level completion calls back into the window from inside the
move. The model instead returns a `MoveOutcome` signal, and `PathfindingGame.Move` acts on it.

## Model

| member | source | states |
|---|---|---|
| Lists.IndexOf | src/GamePanel.java:174 | the first index holding the value, or -1 exactly when it is absent |
| Lists.RemoveFirst | src/GamePanel.java:160 | an absent value leaves the list as it is; a present one shortens it by one; nothing is added |
| Lists.RemoveFirstCutsIndexOf | src/GamePanel.java:167 | removal cuts out exactly the element at the index `indexOf` finds |
| Lists.RemoveFirstNoDuplicates | src/GamePanel.java:158-168 | removing from a repeat-free list keeps it repeat-free and drops the value |
| Lists.PairIndex | src/GamePanel.java:175 | the partner index lies in the same pair (same index / 2) on the other side (other parity) |
| Lists.PairIndexInvolutive | src/GamePanel.java:175 | the partner of the partner is the index itself |
| Lists.PairIndexInRange | src/GamePanel.java:175-176 | in a list of even length the partner of every index is in range |
| Lists.IndexOfNoDuplicates | src/GamePanel.java:174 | in a repeat-free list `indexOf` returns the position the value was read from |
| Geometry.Neighbours | src/GamePanel.java:220-223 | four distinct cells, each at taxicab distance one (the order down, right, up, left is the definition's, as the search's direction table) |
| Geometry.NeighboursAdjacent | src/GamePanel.java:220-223 | the neighbours are exactly the cells at taxicab distance one |
| Reachability.ReachableStep | src/GamePanel.java:225-227 | an open neighbour of a reachable cell is reachable |
| Reachability.ClosedRegionSeparates | src/GamePanel.java:211-233 | a closed region holding the start but not the goal proves the goal unreachable |
| Maze.TeleportPartner | src/GamePanel.java:173-181 | a partner exists only for a teleporter tile and is a teleporter tile; with an even number of tiles every teleporter has one |
| Maze.TeleportersPairUp | src/GamePanel.java:95-99 | with distinct tiles placed in pairs, the two tiles of a pair lead to each other |
| Maze.AddSeparateTile | src/GamePanel.java:109-123 | appending a cell that no list holds keeps every cell on at most one list |
| Maze.RemoveSeparateTile | src/GamePanel.java:157-168 | consuming a key and a lock keeps every cell on at most one list |
| Maze.FrontierAfterExpand | src/GamePanel.java:217-229 | marking the popped cell and pushing its open unmarked neighbours keeps every open neighbour of a marked cell marked or pending |
| Maze.FrontierAfterSkip | src/GamePanel.java:212-217 | popping an already marked cell keeps the same frontier property |
| Maze.DrawWalls | src/GamePanel.java:62-71 | a fresh rows-by-cols grid whose cell (i, j) is a wall exactly when the density draw says so |
| Maze.DrawGrid | src/GamePanel.java:62-77 | the drawn grid with the start and goal corners forced open and every other cell as drawn |
| Maze.Collected | src/GamePanel.java:157-168 | the key-and-lock bookkeeping leaves position, move counter, trail, traps and teleporters alone, never lengthens the key or lock list, and holds a key only when one was held or found |
| Maze.CheckLevelCompletion | src/GamePanel.java:183-188 | the coordinate test signals completion exactly when the player is on the goal and no lock is left, carrying the remaining time; otherwise a plain move |
| Maze.TileEffect | src/GamePanel.java:144-171 | a refused step leaves the state as it was; the move counter, trail, traps and teleporters are never touched; the player is displaced only by a teleporter, onto a teleporter |
| Maze.StepResult | src/GamePanel.java:125-142 | traps and teleporters are never changed by a move, the move counter grows by at most one, and a completion carries the remaining time |
| Maze.StepOutcomes | src/GamePanel.java:125-171 | a step off the grid or into a wall changes nothing and signals nothing; a valid step is refused exactly onto a lock with no key held or found (so plain and teleporter steps go ahead); a refused or trapped step leaves the state as it was; game over exactly on a trap; a step that goes ahead puts the player on the target with one more move and the target added to the trail |
| Maze.StepCompletes | src/GamePanel.java:183-188 | the level is complete exactly when a step goes ahead onto the goal and no lock is left, and it carries the remaining time |
| Maze.StepLocked | src/GamePanel.java:163-168 | a lock refuses a step exactly when the player has no key and finds none there |
| Maze.StepKeysAndLocks | src/GamePanel.java:157-168 | a key there sets the flag and removes one key; a lock there clears the flag and removes one lock; traps and teleporters stay as they are |
| Maze.StepKeepsKeys | src/GamePanel.java:152-168 | a step onto a teleporter, or onto a cell with neither key nor lock, keeps the key flag and both lists |
| Maze.StepKeepsTiles | src/GamePanel.java:144-171 | no step adds a tile; keys and locks only shrink; every cell stays on at most one list |
| Maze.GamePanel.Cells | src/GamePanel.java:46-48 | the cells are exactly the in-bounds points |
| Maze.GamePanel.Walls | src/GamePanel.java:7 | the wall layout value agrees with the grid cell by cell |
| Maze.GamePanel.constructor | src/GamePanel.java:24-32 | empty trail and tile lists, no key, no moves |
| Maze.GamePanel.IsValidMove | src/GamePanel.java:190-194 | a valid move is inside the grid |
| Maze.GamePanel.ValidMoveIsOpen | src/GamePanel.java:190-194 | a valid move is exactly an open cell of the wall layout used for reachability |
| Maze.GamePanel.AcceptableKeepsTilesApart | src/GamePanel.java:109-123 | on a well placed level, a cell passes the placement test (open and not special) if and only if it is open, neither the player's cell nor the goal, and can be added to the trap list with the tiles kept apart; a passing cell can go on any list |
| Maze.GamePanel.IsSpecialPoint | src/GamePanel.java:118-123 | a definition: the cell is the player's, the goal, or on one of the four tile lists; `AcceptableKeepsTilesApart` proves what the test means for placement |
| Maze.GamePanel.NextInt | src/GamePanel.java:112-113 | the next stream value reduced into [0, bound), consuming it; none once the stream is empty |
| Maze.GamePanel.DrawCandidate | src/GamePanel.java:112-113 | one column draw then one row draw: an in-bounds cell, consuming two values |
| Maze.GamePanel.DrawAcceptable | src/GamePanel.java:111-114 | every refused candidate was a wall or special; the one kept is open and not special and is the next candidate in the stream; a dry stream yields none |
| Maze.GamePanel.AddKeepsPlacement | src/GamePanel.java:109-116 | adding a fresh open cell that is neither the goal nor the player's cell keeps the placement invariant |
| Maze.GamePanel.AddRandomElement | src/GamePanel.java:109-116 | appends to the chosen list exactly the first candidate of the stream that is open and not special, consuming the two draws of each candidate up to it; leaves the other lists as they are and keeps the placement invariant; a dry stream places nothing |
| Maze.GamePanel.GenerateNewMaze | src/GamePanel.java:44-85 | grid size, time limit, start and goal, walls as drawn with both corners open, no key, trail just the start, tiles distinct, open, off the start and goal, counts 3L, 2(L/2+1), L/3+1 when placement succeeded, move counter unchanged, and `connected` exactly when the goal is reachable |
| Maze.GamePanel.ResetLevel | src/GamePanel.java:46-77 | the first part of the set-up: size, cleared lists and key, time limit, wall draw, open corners |
| Maze.GamePanel.NewGrid | src/GamePanel.java:46-48 | size and wall draw of the level, start and goal cells |
| Maze.GamePanel.ClearTiles | src/GamePanel.java:49-54 | trail and tile lists empty, no key |
| Maze.GamePanel.StartClock | src/GamePanel.java:57-58 | time limit 60 + 30L and a full countdown |
| Maze.GamePanel.AddSpecialElements | src/GamePanel.java:87-107 | 3L traps, L/2+1 teleporter pairs, L/3+1 keys and locks (exactly, unless the stream runs dry), keeping the placement invariant |
| Maze.GamePanel.AddTraps | src/GamePanel.java:89-92 | `count` trap placements; the other lists unchanged |
| Maze.GamePanel.AddTeleporterPairs | src/GamePanel.java:95-99 | `count` rounds of two teleporter placements; the other lists unchanged |
| Maze.GamePanel.AddKeyLockPairs | src/GamePanel.java:102-106 | `count` rounds of a key and a lock placement; traps and teleporters unchanged |
| Maze.GamePanel.PushNeighbours | src/GamePanel.java:220-229 | every open, unvisited neighbour is pushed; everything pending stays reachable |
| Maze.GamePanel.Visit | src/GamePanel.java:217-229 | an unvisited popped cell is marked and expanded; the search invariant is kept |
| Maze.GamePanel.StartSearch | src/GamePanel.java:207-209 | a fresh visited table with nothing marked and the player's cell pending |
| Maze.GamePanel.SearchExhausted | src/GamePanel.java:211-233 | an empty stack without meeting the goal means the goal is unreachable |
| Maze.GamePanel.SearchStep | src/GamePanel.java:212-230 | a popped goal is reachable; otherwise the search invariant holds and the marked set grows or the stack shrinks |
| Maze.GamePanel.EnsurePathExists | src/GamePanel.java:206-234 | `found` exactly when the goal is reachable from the player over the grid; each cell expanded at most once, always inside the grid, reachable, and not the goal |
| Maze.GamePanel.HandleTeleporter | src/GamePanel.java:173-181 | the player moves to the pair partner when it exists and otherwise stays |
| Maze.GamePanel.HandleSpecialTiles | src/GamePanel.java:144-171 | `trapped` exactly on a trap; the flag and state are those of the tile-effect function; the level stays valid |
| Maze.GamePanel.Advance | src/GamePanel.java:133-136 | the player on the target, one move more, the target on the trail |
| Maze.GamePanel.MovePlayer | src/GamePanel.java:125-142 | signal and new state are the step function's, with validity of the target as its guard; the level stays valid |
| Maze.GamePanel.Tick | src/GamePanel.java:34-39 | one second less, and time-up exactly when none is left |
| Game.KeyStep | src/PathfindingGame.java:51-57 | only R and the other keys ask for no step; every step is a unit step |
| Game.KeyStepIsNeighbour | src/PathfindingGame.java:51-57 | exactly the arrow keys give a step, and each step leads to a neighbouring cell |
| Game.NeighbourHasKey | src/PathfindingGame.java:52-55 | every neighbouring cell is the step of some arrow key |
| Game.CalculateScore | src/PathfindingGame.java:97-99 | a score is a multiple of 10, and at least 100 per level when time is left |
| Game.ScoreExample | src/PathfindingGame.java:97-99 | level 3 with 45 seconds left scores 750 |
| Game.ScoreMonotone | src/PathfindingGame.java:97-99 | the score grows with the level and the time left, and is at least 100 per level with time left |
| Game.PathfindingGame.constructor | src/PathfindingGame.java:14-69 | level 1, no score, no moves, and the panel showing level 1 as generated (the grid as drawn from `walls` with both corners open, the tiles well placed within the level's counts, size, clock, start and trail) |
| Game.PathfindingGame.LevelCompleted | src/PathfindingGame.java:75-95 | adds the score of the level just finished, so the total grows when time is left; level goes up by one; the panel shows the new level as generated (the grid as drawn from `walls` with both corners open, the tiles well placed within the level's counts, size, clock, start and trail); move counter kept |
| Game.PathfindingGame.RestartGame | src/PathfindingGame.java:101-108 | level 1, no score, the panel showing level 1 as generated (the grid as drawn from `walls` with both corners open, the tiles well placed within the level's counts, size, clock, start and trail), move counter kept |
| Game.PathfindingGame.KeyPressed | src/PathfindingGame.java:50-57 | other keys change nothing; R restarts, with level 1 generated from `walls` and the move counter kept; an arrow key takes the step as `Move` does |
| Game.PathfindingGame.Move | src/GamePanel.java:125-142 | the step function's signal; a refused step or plain move keeps level and score, puts the panel in the step function's state, and keeps the grid, goal, clock and random stream; game over restarts with level 1 generated from `walls` and the move counter kept; completion scores, moves on to the next level generated from `walls`, and counts one more move |
| Game.PathfindingGame.TimerFired | src/GamePanel.java:34-41 | time-up exactly when at most one second was left, restarting the game with level 1 generated from `walls` and the move counter kept; otherwise one second less, with level, score, the move state, the grid, goal, time limit and random stream unchanged |

## Left out

- Drawing the maze, the labels, the dialogs, the window title and keyboard focus are not modelled.
- The wall density draw uses `Math.random` and `Math.sin`, which are floating point. It is the input `walls(i, j)`: whether cell (i, j) of the draw is a wall.
- `java.util.Random` becomes the field `random`, a finite stream of raw values. `nextInt(bound)` takes the next value modulo `bound`.
- Maze.GamePanel.AddRandomElement: the source draws until it finds a free cell and never gives up. In the model an exhausted stream ends that placement, and the later ones add nothing. The counts in `GenerateNewMaze` are then upper bounds, and `placed` is false.
- Maze.GamePanel.GenerateNewMaze: when the goal is unreachable, the source calls itself again with level 1. That call may recurse without bound. The model reports `connected == false` instead and keeps the unreachable maze.
- Maze.GamePanel.PushNeighbours: the source clears the wall flag of each pushed cell. `IsValidMove` has just found that cell open, so the write changes nothing, and the model leaves it out. The grid is therefore unchanged by the search.
- The Swing timer is the method `Tick`, with `TimerFired` acting on it. Stopping and restarting the timer is not modelled. It only decides when ticks arrive.
- Maze.GamePanel.GenerateNewMaze: requires level >= 0. The window calls it with level 1 or higher, and Java's integer division rounds negative numbers differently from Dafny's.
- Java's 32-bit `int` is unbounded here. Overflow of the score, the move counter and the grid size is not modelled.
- `GamePanel.getMoves` and `PathfindingGame.getCurrentLevel` are plain field reads. `updateTimeLabel` only updates a label. `main` only creates the window.
- `src/Node.java` is not part of this model. The engine does not use it.
- Game.PathfindingGame.RestartGame: like `LevelCompleted`, `Move`, `KeyPressed`, `TimerFired` and the constructor, it states the new maze through `Maze.GamePanel.Generated`, which keeps the tile-count bounds but neither the exact counts of a placement that did not run dry nor the reachability result that `GenerateNewMaze` reports; the window ignores both.
- The code never resets `moves`: restart and level-up both keep it, and so does the model.
- The teleporter jump is overwritten in the code by the move that follows: the player ends on the teleporter tile itself. The model follows the code.
- The source's `Point` objects are values in the model. No other reference to the player's `Point` outlives a call in the source, so nothing observable is lost.
