/**
 * The maze-state engine of the game panel: level setup, the path check, the move
 * and tile-effect state machine, and the countdown tick. Drawing is not modelled.
 *
 * The grid is a 2-D array of wall flags indexed `[y, x]` (row, column). The wall
 * density draw is an input (`walls(i, j)` is the outcome of the draw for row i,
 * column j), and the panel's random number generator is a finite stream of raw
 * values in the field `random`; `nextInt(bound)` takes the next value modulo `bound`.
 */
module Maze {
  import opened Wrappers
  import opened Geometry
  import opened Lists
  import opened Reachability

  /** What a move signals to the game window. */
  datatype MoveOutcome =
    | NoChange                           // off the grid, into a wall, or onto a lock without a key
    | GameOver                           // stepped onto a trap
    | Moved
    | LevelCompleted(timeRemaining: int) // reached the goal with every lock opened

  /** The four tile lists a placement can add to. */
  datatype TileKind = Trap | Teleporter | Key | Lock

  /** The part of the panel's state that a move reads and writes. */
  datatype LevelState = LevelState(
    playerPos: Point,
    moves: int,
    visitedCells: seq<Point>,
    hasKey: bool,
    traps: seq<Point>,
    teleporters: seq<Point>,
    keys: seq<Point>,
    locks: seq<Point>)

  /** The tile a teleporter at `p` links to: its partner of the same pair, when that index exists. */
  function TeleportPartner(teleporters: seq<Point>, p: Point): (r: Option<Point>)
    ensures r.Some? ==> p in teleporters && r.value in teleporters
    ensures p in teleporters && |teleporters| % 2 == 0 ==> r.Some?
  {
    if p !in teleporters then None
    else
      var j := PairIndex(IndexOf(teleporters, p));
      PairIndexInRange(IndexOf(teleporters, p), if |teleporters| % 2 == 0 then |teleporters| else |teleporters| + 1);
      if j < |teleporters| then Some(teleporters[j]) else None
  }

  /** With distinct tiles in pairs, the two ends of a pair lead to each other. */
  lemma TeleportersPairUp(teleporters: seq<Point>, i: nat)
    requires NoDuplicates(teleporters) && |teleporters| % 2 == 0 && i < |teleporters|
    ensures PairIndex(i) < |teleporters|
    ensures TeleportPartner(teleporters, teleporters[i]) == Some(teleporters[PairIndex(i)])
    ensures TeleportPartner(teleporters, teleporters[PairIndex(i)]) == Some(teleporters[i])
  {
    PairIndexInRange(i, |teleporters|);
    PairIndexInvolutive(i);
    IndexOfNoDuplicates(teleporters, i);
    IndexOfNoDuplicates(teleporters, PairIndex(i));
  }

  /** No cell holds two tiles: no list repeats a cell and no two lists share one. */
  predicate SeparateTiles(traps: seq<Point>, teleporters: seq<Point>, keys: seq<Point>, locks: seq<Point>)
  {
    && NoDuplicates(traps) && NoDuplicates(teleporters) && NoDuplicates(keys) && NoDuplicates(locks)
    && Disjoint(traps, teleporters) && Disjoint(traps, keys) && Disjoint(traps, locks)
    && Disjoint(teleporters, keys) && Disjoint(teleporters, locks) && Disjoint(keys, locks)
  }

  /** A cell on no list can be added to any one of them. */
  lemma AddSeparateTile(traps: seq<Point>, teleporters: seq<Point>, keys: seq<Point>, locks: seq<Point>, p: Point)
    requires SeparateTiles(traps, teleporters, keys, locks)
    requires p !in traps && p !in teleporters && p !in keys && p !in locks
    ensures SeparateTiles(traps + [p], teleporters, keys, locks)
    ensures SeparateTiles(traps, teleporters + [p], keys, locks)
    ensures SeparateTiles(traps, teleporters, keys + [p], locks)
    ensures SeparateTiles(traps, teleporters, keys, locks + [p])
  {
    AppendFresh(traps, p);
    AppendFresh(teleporters, p);
    AppendFresh(keys, p);
    AppendFresh(locks, p);
  }

  /** Consuming a key and a lock keeps the tiles apart. */
  lemma RemoveSeparateTile(traps: seq<Point>, teleporters: seq<Point>, keys: seq<Point>, locks: seq<Point>, p: Point)
    requires SeparateTiles(traps, teleporters, keys, locks)
    ensures SeparateTiles(traps, teleporters, RemoveFirst(keys, p), RemoveFirst(locks, p))
  {
    RemoveFirstNoDuplicates(keys, p);
    RemoveFirstNoDuplicates(locks, p);
  }

  /** A non-empty sequence is its front followed by its last element. */
  lemma LastSplits<T>(s: seq<T>)
    requires |s| > 0
    ensures s == s[..|s| - 1] + [s[|s| - 1]]
  {
  }

  /** The search's frontier property: every open neighbour of a marked cell is marked or still pending. */
  ghost predicate Frontier(w: Walls, seen: set<Point>, pending: seq<Point>)
  {
    forall c, n :: c in seen && n in Neighbours(c) && Open(w, n) ==> n in seen || n in pending
  }

  /** Marking the popped cell and pushing its unmarked open neighbours keeps the frontier. */
  lemma FrontierAfterExpand(w: Walls, seen: set<Point>, popped: seq<Point>, current: Point, grown: seq<Point>)
    requires Frontier(w, seen, popped + [current])
    requires forall c :: c in popped ==> c in grown
    requires forall n :: n in Neighbours(current) && Open(w, n) ==> n in seen + {current} || n in grown
    ensures Frontier(w, seen + {current}, grown)
  {
    forall c, n | c in seen + {current} && n in Neighbours(c) && Open(w, n)
      ensures n in seen + {current} || n in grown
    {
      if c != current {
        assert n in seen || n in popped + [current];
        if n !in seen && n != current {
          assert n in popped;
        }
      }
    }
  }

  /** Popping an already marked cell keeps the frontier. */
  lemma FrontierAfterSkip(w: Walls, seen: set<Point>, popped: seq<Point>, current: Point)
    requires Frontier(w, seen, popped + [current])
    requires current in seen
    ensures Frontier(w, seen, popped)
  {
    forall c, n | c in seen && n in Neighbours(c) && Open(w, n)
      ensures n in seen || n in popped
    {
      assert n in seen || n in popped + [current];
    }
  }

  /**
   * The wall draw of a new grid: cell (i, j) of row i and column j is a wall exactly when
   * the density draw `walls(i, j)` says so.
   */
  method DrawWalls(rows: int, cols: int, walls: (int, int) -> bool) returns (g: array2<bool>)
    requires rows >= 0 && cols >= 0
    ensures fresh(g) && g.Length0 == rows && g.Length1 == cols
    ensures forall i, j :: 0 <= i < rows && 0 <= j < cols ==> g[i, j] == walls(i, j)
  {
    g := new bool[rows, cols];
    var i := 0;
    while i < rows
      invariant 0 <= i <= rows
      invariant forall i', j :: 0 <= i' < i && 0 <= j < cols ==> g[i', j] == walls(i', j)
    {
      var j := 0;
      while j < cols
        invariant 0 <= j <= cols
        invariant forall i', j' :: 0 <= i' < i && 0 <= j' < cols ==> g[i', j'] == walls(i', j')
        invariant forall j' :: 0 <= j' < j ==> g[i, j'] == walls(i, j')
      {
        g[i, j] := walls(i, j);
        j := j + 1;
      }
      i := i + 1;
    }
  }

  /** The new grid with its start and goal corners cleared of walls. */
  method DrawGrid(rows: int, cols: int, walls: (int, int) -> bool) returns (g: array2<bool>)
    requires rows > 0 && cols > 0
    ensures fresh(g) && g.Length0 == rows && g.Length1 == cols
    ensures forall y, x :: 0 <= y < rows && 0 <= x < cols ==>
              (g[y, x] <==> walls(y, x) && Point(x, y) != Point(0, 0) && Point(x, y) != Point(cols - 1, rows - 1))
  {
    g := DrawWalls(rows, cols, walls);
    g[0, 0] := false;
    g[rows - 1, cols - 1] := false;
  }

  /** A move's new state: the player on `t`, one more move, and `t` added to the trail. */
  function Stepped(s: LevelState, t: Point): LevelState
  {
    s.(playerPos := t, moves := s.moves + 1, visitedCells := s.visitedCells + [t])
  }

  /**
   * The key-and-lock bookkeeping of stepping onto `t`: a key there is picked up, then a lock
   * there is opened and uses up the key.
   */
  function Collected(s: LevelState, t: Point): (r: LevelState)
    ensures r.playerPos == s.playerPos && r.moves == s.moves && r.visitedCells == s.visitedCells
    ensures r.traps == s.traps && r.teleporters == s.teleporters
    ensures |r.keys| <= |s.keys| && |r.locks| <= |s.locks|
    ensures r.hasKey ==> s.hasKey || t in s.keys
  {
    s.(hasKey := t !in s.locks && (s.hasKey || t in s.keys),
       keys := RemoveFirst(s.keys, t),
       locks := RemoveFirst(s.locks, t))
  }

  /** The goal test after a step: the player on the goal with every lock opened. */
  function CheckLevelCompletion(playerPos: Point, end: Point, locks: seq<Point>, timeRemaining: int): (r: MoveOutcome)
    ensures r == Moved || r.LevelCompleted?
    ensures r.LevelCompleted? <==> playerPos == end && locks == []
    ensures r.LevelCompleted? ==> r.timeRemaining == timeRemaining
  {
    if playerPos.x == end.x && playerPos.y == end.y && |locks| == 0 then LevelCompleted(timeRemaining) else Moved
  }

  /**
   * The effect of the special tile at `t`, tested in the order trap, teleporter, key, lock,
   * and whether the step may go ahead: a trap and a lock without a key stop it; a teleporter
   * moves the player to its partner; a key is picked up and a lock opened with the key held.
   */
  function TileEffect(s: LevelState, t: Point): (r: (bool, LevelState))
    ensures !r.0 ==> r.1 == s
    ensures r.1.moves == s.moves && r.1.visitedCells == s.visitedCells
    ensures r.1.traps == s.traps && r.1.teleporters == s.teleporters
    ensures r.1.playerPos != s.playerPos ==> t in s.teleporters && r.1.playerPos in s.teleporters
  {
    if t in s.traps then (false, s)
    else if t in s.teleporters then
      (true, s.(playerPos := match TeleportPartner(s.teleporters, t) { case Some(q) => q case None => s.playerPos }))
    else if t in s.locks && !s.hasKey && t !in s.keys then (false, s)
    else (true, Collected(s, t))
  }

  /**
   * What a step onto `t` does to the level, `open` telling whether `t` is a valid move: a
   * blocked step, a trap and a lock without a key leave the state as it is; a teleporter
   * step ends on the teleporter tile itself; any other step does the key-and-lock
   * bookkeeping. A step that goes ahead is then tested for completion.
   */
  function StepResult(s: LevelState, t: Point, open: bool, end: Point, timeRemaining: int): (r: (MoveOutcome, LevelState))
    ensures r.1.traps == s.traps && r.1.teleporters == s.teleporters
    ensures r.1.moves == s.moves || r.1.moves == s.moves + 1
    ensures r.0.LevelCompleted? ==> r.0.timeRemaining == timeRemaining
  {
    if !open then (NoChange, s)
    else if t in s.traps then (GameOver, s)
    else
      var (proceed, mid) := TileEffect(s, t);
      if !proceed then (NoChange, s)
      else
        var after := Stepped(mid, t);
        (CheckLevelCompletion(after.playerPos, end, after.locks, timeRemaining), after)
  }

  /** A step that is refused or ends the game changes nothing; one that goes ahead is one move, onto `t`. */
  lemma StepOutcomes(s: LevelState, t: Point, open: bool, end: Point, timeRemaining: int)
    ensures var (outcome, after) := StepResult(s, t, open, end, timeRemaining);
            && (!open ==> outcome == NoChange && after == s)
            && (outcome == NoChange || outcome == GameOver <==> after == s)
            && (outcome == GameOver <==> open && t in s.traps)
            && (outcome == NoChange <==>
                  !open || (t !in s.traps && t !in s.teleporters && t in s.locks && t !in s.keys && !s.hasKey))
            && (outcome.Moved? || outcome.LevelCompleted? <==>
                  after.playerPos == t && after.moves == s.moves + 1 && after.visitedCells == s.visitedCells + [t])
  {
  }

  /** The level is complete exactly when a step that goes ahead ends on the goal with no lock left. */
  lemma StepCompletes(s: LevelState, t: Point, open: bool, end: Point, timeRemaining: int)
    ensures var (outcome, after) := StepResult(s, t, open, end, timeRemaining);
            && (outcome.LevelCompleted? <==> after.moves == s.moves + 1 && t == end && after.locks == [])
            && (outcome.LevelCompleted? ==> outcome.timeRemaining == timeRemaining)
  {
  }

  /** A lock refuses a step exactly when the player has no key and finds none there. */
  lemma StepLocked(s: LevelState, t: Point, end: Point, timeRemaining: int)
    requires t !in s.traps && t !in s.teleporters && t in s.locks
    ensures StepResult(s, t, true, end, timeRemaining).0 == NoChange <==> t !in s.keys && !s.hasKey
  {
  }

  /**
   * The key-and-lock bookkeeping of a step: picking up a key there sets the flag and removes
   * that key, opening a lock there clears the flag and removes that lock; nothing else is
   * added, and the trap and teleporter lists stay as they are.
   */
  lemma StepKeysAndLocks(s: LevelState, t: Point, end: Point, timeRemaining: int)
    requires t !in s.traps && t !in s.teleporters && (t !in s.locks || t in s.keys || s.hasKey)
    ensures var after := StepResult(s, t, true, end, timeRemaining).1;
            && after.keys == RemoveFirst(s.keys, t) && after.locks == RemoveFirst(s.locks, t)
            && (t in s.keys ==> |after.keys| == |s.keys| - 1)
            && (t in s.locks ==> |after.locks| == |s.locks| - 1 && !after.hasKey)
            && (t in s.keys && t !in s.locks ==> after.hasKey)
            && after.traps == s.traps && after.teleporters == s.teleporters
  {
  }

  /**
   * Only a key or a lock changes the key-and-lock bookkeeping: a step onto a teleporter or
   * onto a cell with neither keeps the flag and both lists.
   */
  lemma StepKeepsKeys(s: LevelState, t: Point, open: bool, end: Point, timeRemaining: int)
    requires t in s.teleporters || (t !in s.keys && t !in s.locks)
    ensures var after := StepResult(s, t, open, end, timeRemaining).1;
            after.hasKey == s.hasKey && after.keys == s.keys && after.locks == s.locks
  {
  }

  /** No step adds a tile, and a step keeps the tiles apart. */
  lemma StepKeepsTiles(s: LevelState, t: Point, open: bool, end: Point, timeRemaining: int)
    requires SeparateTiles(s.traps, s.teleporters, s.keys, s.locks)
    ensures var after := StepResult(s, t, open, end, timeRemaining).1;
            && SeparateTiles(after.traps, after.teleporters, after.keys, after.locks)
            && after.traps == s.traps && after.teleporters == s.teleporters
            && (forall p :: p in after.keys ==> p in s.keys)
            && (forall p :: p in after.locks ==> p in s.locks)
  {
    RemoveSeparateTile(s.traps, s.teleporters, s.keys, s.locks, t);
  }

  class GamePanel {
    var grid: array2<bool>      // grid[y, x] is true for a wall
    var rows: int
    var cols: int
    var playerPos: Point
    var end: Point
    var moves: int
    var visitedCells: seq<Point>
    var traps: seq<Point>
    var teleporters: seq<Point>
    var keys: seq<Point>
    var locks: seq<Point>
    var hasKey: bool
    var timeLimit: int
    var timeRemaining: int
    var random: seq<nat>        // the values the random number generator has still to give

    ghost predicate GridShaped()
      reads this`grid, this`rows, this`cols
    {
      grid.Length0 == rows && grid.Length1 == cols
    }

    predicate InBounds(p: Point)
      reads this`rows, this`cols
    {
      0 <= p.x < cols && 0 <= p.y < rows
    }

    /** Every cell of the grid. */
    ghost function Cells(): (r: set<Point>)
      reads this`rows, this`cols
      ensures forall p :: p in r <==> InBounds(p)
    {
      set y, x | 0 <= y < rows && 0 <= x < cols :: Point(x, y)
    }

    /** The wall flags as a value, row by row. */
    ghost function Walls(): (w: Walls)
      reads this`grid, grid
      ensures |w| == grid.Length0
      ensures forall y :: 0 <= y < |w| ==> |w[y]| == grid.Length1
      ensures forall y, x {:trigger w[y][x]} :: 0 <= y < grid.Length0 && 0 <= x < grid.Length1 ==> w[y][x] == grid[y, x]
    {
      var g := grid;
      seq(g.Length0, y requires 0 <= y < g.Length0 reads g =>
        seq(g.Length1, x requires 0 <= x < g.Length1 reads g => g[y, x]))
    }

    /** The cell holds a special tile. */
    ghost predicate IsTile(p: Point)
      reads this`traps, this`teleporters, this`keys, this`locks
    {
      p in traps || p in teleporters || p in keys || p in locks
    }

    ghost function State(): LevelState
      reads this
    {
      LevelState(playerPos, moves, visitedCells, hasKey, traps, teleporters, keys, locks)
    }

    /** No cell carries two tiles, and every tile is an open cell other than the goal. */
    ghost predicate TilesPlaced()
      reads this`grid, this`rows, this`cols, this`end, this`traps, this`teleporters, this`keys, this`locks, grid
      requires GridShaped()
    {
      && SeparateTiles(traps, teleporters, keys, locks)
      && (forall p | IsTile(p) :: p != end && IsValidMove(p.x, p.y))
    }

    /** What holds throughout a level. */
    ghost predicate Valid()
      reads this`grid, this`rows, this`cols, this`playerPos, this`end
      reads this`traps, this`teleporters, this`keys, this`locks, grid
    {
      && GridShaped()
      && rows > 0 && cols > 0
      && IsValidMove(playerPos.x, playerPos.y)
      && end == Point(cols - 1, rows - 1)
      && IsValidMove(end.x, end.y)
      && TilesPlaced()
    }

    constructor (random: seq<nat>)
      ensures this.random == random
      ensures moves == 0 && !hasKey
      ensures visitedCells == [] && traps == [] && teleporters == [] && keys == [] && locks == []
    {
      grid := new bool[0, 0];
      rows, cols := 0, 0;
      playerPos, end := Point(0, 0), Point(0, 0);
      moves := 0;
      visitedCells, traps, teleporters, keys, locks := [], [], [], [], [];
      hasKey := false;
      timeLimit, timeRemaining := 0, 0;
      this.random := random;
    }

    /** A cell the player may stand on: inside the grid and not a wall. */
    function IsValidMove(x: int, y: int): (r: bool)
      reads this`grid, this`rows, this`cols, grid
      requires GridShaped()
      ensures r ==> InBounds(Point(x, y))
    {
      x >= 0 && x < cols && y >= 0 && y < rows && !grid[y, x]
    }

    /** A valid move is exactly a step onto an open cell of the wall layout. */
    lemma ValidMoveIsOpen(x: int, y: int)
      requires GridShaped()
      ensures IsValidMove(x, y) <==> Open(Walls(), Point(x, y))
    {
    }

    /** The cell is the player's, the goal, or already holds a tile. */
    function IsSpecialPoint(x: int, y: int): bool
      reads this`playerPos, this`end, this`traps, this`teleporters, this`keys, this`locks
    {
      var p := Point(x, y);
      p == playerPos || p == end || p in traps || p in teleporters || p in keys || p in locks
    }

    /**
     * The panel shows `level` as generated from the wall draw `walls`: its size and clock,
     * the grid as drawn with both corners open, the player on the start cell with the trail
     * just that cell and no key, the tiles well placed, and at most the level's tile counts.
     */
    ghost predicate Generated(level: int, walls: (int, int) -> bool)
      reads this, grid
    {
      && rows == 15 + 2 * level && cols == 20 + 2 * level
      && GridShaped()
      && timeLimit == 60 + 30 * level && timeRemaining == timeLimit
      && (forall y, x :: 0 <= y < rows && 0 <= x < cols ==>
            (grid[y, x] <==> walls(y, x) && Point(x, y) != Point(0, 0) && Point(x, y) != Point(cols - 1, rows - 1)))
      && playerPos == Point(0, 0) && visitedCells == [Point(0, 0)]
      && !hasKey
      && PlacementOk()
      && |traps| <= 3 * level && |teleporters| <= 2 * (level / 2 + 1)
      && |keys| <= level / 3 + 1 && |locks| <= level / 3 + 1
    }

    /** Between two states the panel kept its grid, its goal, its clock and its random stream. */
    twostate predicate SameLevel()
      reads this, grid
    {
      && grid == old(grid) && unchanged(grid)
      && rows == old(rows) && cols == old(cols) && end == old(end)
      && timeLimit == old(timeLimit) && random == old(random)
    }

    /** `random.nextInt(bound)`: the next value of the stream reduced into [0, bound). */
    method NextInt(bound: int) returns (drawn: Option<int>)
      requires bound > 0
      modifies this`random
      ensures old(random) == [] ==> drawn == None && random == []
      ensures old(random) != [] ==> drawn == Some(old(random)[0] % bound) && random == old(random)[1..]
      ensures drawn.Some? ==> 0 <= drawn.value < bound
    {
      if random == [] {
        drawn := None;
      } else {
        drawn := Some(random[0] % bound);
        random := random[1..];
      }
    }

    /** The i-th cell drawn from `stream`: a column draw then a row draw. */
    ghost function Candidate(stream: seq<nat>, i: nat): Point
      reads this`rows, this`cols
      requires 2 * i + 1 < |stream| && rows > 0 && cols > 0
    {
      Point(stream[2 * i] % cols, stream[2 * i + 1] % rows)
    }

    /** A candidate cell the placement keeps: open and not yet special. */
    ghost predicate Acceptable(p: Point)
      reads this`grid, this`rows, this`cols, grid
      reads this`playerPos, this`end, this`traps, this`teleporters, this`keys, this`locks
      requires GridShaped()
    {
      IsValidMove(p.x, p.y) && !IsSpecialPoint(p.x, p.y)
    }

    /** The tiles are well placed and none of them is on the player's cell. */
    ghost predicate PlacementOk()
      reads this`grid, this`rows, this`cols, this`playerPos, this`end, this`traps, this`teleporters, this`keys, this`locks, grid
      requires GridShaped()
    {
      TilesPlaced() && !IsTile(playerPos)
    }

    /**
     * The placement test is exactly what keeps the tiles apart: on a well placed level, a cell
     * is acceptable if and only if it is open, neither the player's cell nor the goal, and
     * appending it to the trap list keeps the tiles apart; an acceptable cell can also go on
     * any of the other lists.
     */
    lemma AcceptableKeepsTilesApart(p: Point)
      requires GridShaped() && PlacementOk()
      ensures Acceptable(p) <==> && IsValidMove(p.x, p.y) && p != playerPos && p != end
                                 && SeparateTiles(traps + [p], teleporters, keys, locks)
      ensures Acceptable(p) ==> && SeparateTiles(traps, teleporters + [p], keys, locks)
                                && SeparateTiles(traps, teleporters, keys + [p], locks)
                                && SeparateTiles(traps, teleporters, keys, locks + [p])
    {
      if p in traps {
        var i := IndexOf(traps, p);
        assert (traps + [p])[i] == (traps + [p])[|traps|];
      } else if p in teleporters || p in keys || p in locks {
        assert p in traps + [p];
      } else if p != playerPos && p != end {
        AddSeparateTile(traps, teleporters, keys, locks, p);
      }
    }

    /** One do-while round: a column draw, then a row draw. */
    method DrawCandidate() returns (c: Option<Point>)
      requires rows > 0 && cols > 0
      modifies this`random
      ensures |old(random)| >= 2 ==> c == Some(Candidate(old(random), 0)) && random == old(random)[2..]
      ensures |old(random)| < 2 ==> c == None && random == []
      ensures c.Some? ==> InBounds(c.value)
    {
      c := None;
      var x := NextInt(cols);
      if x.Some? {
        var y := NextInt(rows);
        if y.Some? {
          c := Some(Point(x.value, y.value));
        }
      }
    }

    /**
     * The do-while loop of the placement: draws cells until one is open and not special.
     * `candidates` counts the cells refused; the stream running dry ends the search with `None`.
     */
    method DrawAcceptable() returns (c: Option<Point>, ghost candidates: nat)
      requires GridShaped() && rows > 0 && cols > 0
      modifies this`random
      ensures forall i :: 0 <= i < candidates ==> 2 * i + 1 < |old(random)| && !Acceptable(Candidate(old(random), i))
      ensures c.Some? ==> && 2 * candidates + 2 <= |old(random)|
                          && c.value == Candidate(old(random), candidates)
                          && Acceptable(c.value)
                          && random == old(random)[2 * candidates + 2..]
      ensures c.None? ==> random == [] && candidates == |old(random)| / 2
    {
      ghost var stream := random;
      candidates := 0;
      c := DrawCandidate();
      while c.Some? && (grid[c.value.y, c.value.x] || IsSpecialPoint(c.value.x, c.value.y))
        invariant 2 * candidates <= |stream|
        invariant c.Some? ==> && 2 * candidates + 2 <= |stream|
                              && c.value == Candidate(stream, candidates)
                              && InBounds(c.value)
                              && random == stream[2 * candidates + 2..]
        invariant c.None? ==> random == [] && candidates == |stream| / 2
        invariant forall i :: 0 <= i < candidates ==> 2 * i + 1 < |stream| && !Acceptable(Candidate(stream, i))
        decreases |random|, c.Some?
      {
        assert !Acceptable(Candidate(stream, candidates));
        candidates := candidates + 1;
        c := DrawCandidate();
      }
    }

    /** Adding a fresh open cell other than the goal and the player's to one list keeps the placement good. */
    lemma AddKeepsPlacement(s: LevelState, kind: TileKind, p: Point)
      requires GridShaped() && playerPos == s.playerPos
      requires SeparateTiles(s.traps, s.teleporters, s.keys, s.locks)
      requires forall q | q in s.traps || q in s.teleporters || q in s.keys || q in s.locks :: q != end && IsValidMove(q.x, q.y)
      requires s.playerPos !in s.traps && s.playerPos !in s.teleporters && s.playerPos !in s.keys && s.playerPos !in s.locks
      requires IsValidMove(p.x, p.y) && p != end && p != s.playerPos
      requires p !in s.traps && p !in s.teleporters && p !in s.keys && p !in s.locks
      requires traps == if kind == Trap then s.traps + [p] else s.traps
      requires teleporters == if kind == Teleporter then s.teleporters + [p] else s.teleporters
      requires keys == if kind == Key then s.keys + [p] else s.keys
      requires locks == if kind == Lock then s.locks + [p] else s.locks
      ensures PlacementOk()
    {
      AddSeparateTile(s.traps, s.teleporters, s.keys, s.locks, p);
    }

    /** Places one tile of `kind` on a drawn open, non-special cell, unless the stream runs dry. */
    method AddRandomElement(kind: TileKind) returns (placed: bool, p: Point, ghost candidates: nat)
      requires GridShaped() && rows > 0 && cols > 0
      requires PlacementOk()
      modifies this`random, this`traps, this`teleporters, this`keys, this`locks
      ensures PlacementOk()
      ensures forall i :: 0 <= i < candidates ==> 2 * i + 1 < |old(random)| && !old(Acceptable(Candidate(random, i)))
      ensures placed ==> && 2 * candidates + 2 <= |old(random)|
                         && p == Candidate(old(random), candidates)
                         && random == old(random)[2 * candidates + 2..]
                         && old(Acceptable(p))
      ensures !placed ==> random == [] && candidates == |old(random)| / 2
      ensures IsSuffix(random, old(random))
      ensures traps == if placed && kind == Trap then old(traps) + [p] else old(traps)
      ensures teleporters == if placed && kind == Teleporter then old(teleporters) + [p] else old(teleporters)
      ensures keys == if placed && kind == Key then old(keys) + [p] else old(keys)
      ensures locks == if placed && kind == Lock then old(locks) + [p] else old(locks)
    {
      ghost var s := State();
      forall q | q in s.traps || q in s.teleporters || q in s.keys || q in s.locks
        ensures q != end && IsValidMove(q.x, q.y)
      {
        assert IsTile(q);
      }
      var c;
      c, candidates := DrawAcceptable();
      placed, p := c.Some?, Point(0, 0);
      if c.Some? {
        p := c.value;
        match kind {
          case Trap => traps := traps + [p];
          case Teleporter => teleporters := teleporters + [p];
          case Key => keys := keys + [p];
          case Lock => locks := locks + [p];
        }
        AddKeepsPlacement(s, kind, p);
      }
    }

    /**
     * Sets up the level: a grid of 15 + 2 * level rows and 20 + 2 * level columns drawn from
     * `walls`, the player on the top-left cell and the goal on the bottom-right one (both
     * cleared), empty tile lists and no key, a time limit of 60 + 30 * level seconds, the
     * tiles, the path check (whose result is `connected`), and the start cell on the trail.
     * The move counter is left as it was.
     */
    method GenerateNewMaze(level: int, walls: (int, int) -> bool) returns (placed: bool, connected: bool)
      requires level >= 0
      modifies this
      ensures Valid() && fresh(grid)
      ensures rows == 15 + 2 * level && cols == 20 + 2 * level
      ensures timeLimit == 60 + 30 * level && timeRemaining == timeLimit
      ensures playerPos == Point(0, 0) && end == Point(cols - 1, rows - 1)
      ensures forall y, x :: 0 <= y < rows && 0 <= x < cols ==>
                (grid[y, x] <==> walls(y, x) && Point(x, y) != Point(0, 0) && Point(x, y) != Point(cols - 1, rows - 1))
      ensures moves == old(moves) && !hasKey && visitedCells == [playerPos]
      ensures PlacementOk()
      ensures |traps| <= 3 * level && |teleporters| <= 2 * (level / 2 + 1)
      ensures |keys| <= level / 3 + 1 && |locks| <= level / 3 + 1
      ensures placed ==> && |traps| == 3 * level
                         && |teleporters| == 2 * (level / 2 + 1)
                         && |keys| == level / 3 + 1 && |locks| == level / 3 + 1
      ensures !placed ==> random == []
      ensures IsSuffix(random, old(random))
      ensures connected <==> Reachable(Walls(), playerPos, end)
    {
      ResetLevel(level, walls);
      placed := AddSpecialElements(level);
      ghost var expanded;
      connected, expanded := EnsurePathExists();
      visitedCells := visitedCells + [playerPos];
    }

    /**
     * The first part of the set-up: the grid's size, the cleared lists and key, the time
     * limit, the wall draw, and the start and goal cells, both cleared.
     */
    method ResetLevel(level: int, walls: (int, int) -> bool)
      requires level >= 0
      modifies this
      ensures fresh(grid) && GridShaped()
      ensures rows == 15 + 2 * level && cols == 20 + 2 * level
      ensures timeLimit == 60 + 30 * level && timeRemaining == timeLimit
      ensures playerPos == Point(0, 0) && end == Point(cols - 1, rows - 1)
      ensures unchanged(this`random, this`moves)
      ensures !hasKey && visitedCells == [] && traps == [] && teleporters == [] && keys == [] && locks == []
      ensures forall y, x :: 0 <= y < rows && 0 <= x < cols ==>
                (grid[y, x] <==> walls(y, x) && Point(x, y) != Point(0, 0) && Point(x, y) != Point(cols - 1, rows - 1))
    {
      NewGrid(level, walls);
      ClearTiles();
      StartClock(level);
    }

    /** The grid of the level drawn from `walls`, with the player on the start and the goal set. */
    method NewGrid(level: int, walls: (int, int) -> bool)
      requires level >= 0
      modifies this`grid, this`rows, this`cols, this`playerPos, this`end
      ensures fresh(grid) && GridShaped()
      ensures rows == 15 + 2 * level && cols == 20 + 2 * level
      ensures playerPos == Point(0, 0) && end == Point(cols - 1, rows - 1)
      ensures forall y, x :: 0 <= y < rows && 0 <= x < cols ==>
                (grid[y, x] <==> walls(y, x) && Point(x, y) != Point(0, 0) && Point(x, y) != Point(cols - 1, rows - 1))
    {
      rows := 15 + level * 2;
      cols := 20 + level * 2;
      grid := DrawGrid(rows, cols, walls);
      playerPos := Point(0, 0);
      end := Point(cols - 1, rows - 1);
    }

    /** Empties the trail and the tile lists and drops the key. */
    method ClearTiles()
      modifies this`visitedCells, this`traps, this`teleporters, this`keys, this`locks, this`hasKey
      ensures !hasKey && visitedCells == [] && traps == [] && teleporters == [] && keys == [] && locks == []
    {
      visitedCells, traps, teleporters, keys, locks := [], [], [], [], [];
      hasKey := false;
    }

    /** The level's time limit, 60 + 30 * level seconds, and a full countdown. */
    method StartClock(level: int)
      modifies this`timeLimit, this`timeRemaining
      ensures timeLimit == 60 + 30 * level && timeRemaining == timeLimit
    {
      timeLimit := 60 + level * 30;
      timeRemaining := timeLimit;
    }

    /**
     * Places the level's tiles: 3 traps per level, then level / 2 + 1 teleporter pairs,
     * then level / 3 + 1 key-and-lock pairs, each by one placement draw. Once the stream
     * runs dry the remaining placements add nothing and `placed` is false.
     */
    method AddSpecialElements(level: int) returns (placed: bool)
      requires GridShaped() && rows > 0 && cols > 0 && level >= 0
      requires traps == [] && teleporters == [] && keys == [] && locks == []
      modifies this`random, this`traps, this`teleporters, this`keys, this`locks
      ensures PlacementOk()
      ensures |traps| <= 3 * level && |teleporters| <= 2 * (level / 2 + 1)
      ensures |keys| <= level / 3 + 1 && |locks| <= level / 3 + 1
      ensures placed ==> && |traps| == 3 * level
                         && |teleporters| == 2 * (level / 2 + 1)
                         && |keys| == level / 3 + 1 && |locks| == level / 3 + 1
      ensures !placed ==> random == []
      ensures IsSuffix(random, old(random))
    {
      var numTraps := level * 3;
      var trapsPlaced := AddTraps(numTraps);
      ghost var afterTraps := random;
      var numTeleporterPairs := level / 2 + 1;
      var teleportersPlaced := AddTeleporterPairs(numTeleporterPairs);
      ghost var afterTeleporters := random;
      SuffixTransitive(afterTeleporters, afterTraps, old(random));
      var numKeyLockPairs := level / 3 + 1;
      var keysPlaced := AddKeyLockPairs(numKeyLockPairs);
      SuffixTransitive(random, afterTeleporters, old(random));
      placed := trapsPlaced && teleportersPlaced && keysPlaced;
    }

    /** The trap loop: `count` placements onto the trap list. */
    method AddTraps(count: int) returns (placed: bool)
      requires GridShaped() && rows > 0 && cols > 0 && PlacementOk() && count >= 0
      modifies this`random, this`traps, this`teleporters, this`keys, this`locks
      ensures PlacementOk()
      ensures teleporters == old(teleporters) && keys == old(keys) && locks == old(locks)
      ensures |old(traps)| <= |traps| <= |old(traps)| + count
      ensures placed ==> |traps| == |old(traps)| + count
      ensures !placed ==> random == []
      ensures IsSuffix(random, old(random))
    {
      placed := true;
      var i := 0;
      while i < count
        invariant 0 <= i <= count
        invariant PlacementOk()
        invariant teleporters == old(teleporters) && keys == old(keys) && locks == old(locks)
        invariant |old(traps)| <= |traps| <= |old(traps)| + i
        invariant placed ==> |traps| == |old(traps)| + i
        invariant !placed ==> random == []
        invariant IsSuffix(random, old(random))
      {
        ghost var before := random;
        var ok, _, _ := AddRandomElement(Trap);
        SuffixTransitive(random, before, old(random));
        placed := placed && ok;
        i := i + 1;
      }
    }

    /** The teleporter loop: `count` rounds of two placements onto the teleporter list. */
    method AddTeleporterPairs(count: int) returns (placed: bool)
      requires GridShaped() && rows > 0 && cols > 0 && PlacementOk() && count >= 0
      modifies this`random, this`traps, this`teleporters, this`keys, this`locks
      ensures PlacementOk()
      ensures traps == old(traps) && keys == old(keys) && locks == old(locks)
      ensures |old(teleporters)| <= |teleporters| <= |old(teleporters)| + 2 * count
      ensures placed ==> |teleporters| == |old(teleporters)| + 2 * count
      ensures !placed ==> random == []
      ensures IsSuffix(random, old(random))
    {
      placed := true;
      var i := 0;
      while i < count
        invariant 0 <= i <= count
        invariant PlacementOk()
        invariant traps == old(traps) && keys == old(keys) && locks == old(locks)
        invariant |old(teleporters)| <= |teleporters| <= |old(teleporters)| + 2 * i
        invariant placed ==> |teleporters| == |old(teleporters)| + 2 * i
        invariant !placed ==> random == []
        invariant IsSuffix(random, old(random))
      {
        ghost var before := random;
        var first, _, _ := AddRandomElement(Teleporter);
        ghost var between := random;
        var second, _, _ := AddRandomElement(Teleporter);
        SuffixTransitive(random, between, before);
        SuffixTransitive(random, before, old(random));
        placed := placed && first && second;
        i := i + 1;
      }
    }

    /** The key-and-lock loop: `count` rounds of a key placement followed by a lock placement. */
    method AddKeyLockPairs(count: int) returns (placed: bool)
      requires GridShaped() && rows > 0 && cols > 0 && PlacementOk() && count >= 0
      modifies this`random, this`traps, this`teleporters, this`keys, this`locks
      ensures PlacementOk()
      ensures traps == old(traps) && teleporters == old(teleporters)
      ensures |old(keys)| <= |keys| <= |old(keys)| + count
      ensures |old(locks)| <= |locks| <= |old(locks)| + count
      ensures placed ==> |keys| == |old(keys)| + count && |locks| == |old(locks)| + count
      ensures !placed ==> random == []
      ensures IsSuffix(random, old(random))
    {
      placed := true;
      var i := 0;
      while i < count
        invariant 0 <= i <= count
        invariant PlacementOk()
        invariant traps == old(traps) && teleporters == old(teleporters)
        invariant |old(keys)| <= |keys| <= |old(keys)| + i
        invariant |old(locks)| <= |locks| <= |old(locks)| + i
        invariant placed ==> |keys| == |old(keys)| + i && |locks| == |old(locks)| + i
        invariant !placed ==> random == []
        invariant IsSuffix(random, old(random))
      {
        ghost var before := random;
        var key, _, _ := AddRandomElement(Key);
        ghost var between := random;
        var lock, _, _ := AddRandomElement(Lock);
        SuffixTransitive(random, between, before);
        SuffixTransitive(random, before, old(random));
        placed := placed && key && lock;
        i := i + 1;
      }
    }

    /**
     * One expansion of the search: for each neighbour of `current`, in the order down, right,
     * up, left, that is a valid move and not yet visited, clears its (absent) wall and pushes it.
     */
    method PushNeighbours(current: Point, stack: seq<Point>, visited: array2<bool>, ghost w: Walls, ghost seen: set<Point>)
      returns (grown: seq<Point>)
      requires GridShaped() && visited != grid && visited.Length0 == rows && visited.Length1 == cols
      requires |w| == rows && forall y :: 0 <= y < rows ==> |w[y]| == cols
      requires forall y, x :: 0 <= y < rows && 0 <= x < cols ==> grid[y, x] == w[y][x]
      requires forall y, x :: 0 <= y < rows && 0 <= x < cols ==> (visited[y, x] <==> Point(x, y) in seen)
      requires Reachable(w, playerPos, current)
      requires forall c :: c in stack ==> InBounds(c) && Reachable(w, playerPos, c)
      ensures forall c :: c in stack ==> c in grown
      ensures forall c :: c in grown ==> InBounds(c) && Reachable(w, playerPos, c)
      ensures forall n :: n in Neighbours(current) && Open(w, n) ==> n in seen || n in grown
    {
      grown := stack;
      var k := 0;
      while k < 4
        invariant 0 <= k <= 4
        invariant forall c :: c in stack ==> c in grown
        invariant forall c :: c in grown ==> InBounds(c) && Reachable(w, playerPos, c)
        invariant forall j :: 0 <= j < k && Open(w, Neighbours(current)[j]) ==> Neighbours(current)[j] in seen || Neighbours(current)[j] in grown
      {
        var next := Neighbours(current)[k];
        if IsValidMove(next.x, next.y) && !visited[next.y, next.x] {
          // the source clears the wall flag of `next` here, which `IsValidMove` has just found clear
          ReachableStep(w, playerPos, current, next);
          grown := grown + [next];
        }
        k := k + 1;
      }
    }

    /**
     * What holds between two rounds of the search over the wall layout `w`: the grid still
     * shows `w`; `visited` marks exactly the cells of `seen`, which `expanded` lists once each;
     * every pending and every marked cell is inside the grid and reachable from the player's
     * cell; the goal is unmarked; and every open neighbour of a marked cell is marked or pending.
     */
    ghost predicate Searching(w: Walls, visited: array2<bool>, stack: seq<Point>, seen: set<Point>, expanded: seq<Point>)
      reads this`grid, this`rows, this`cols, this`playerPos, this`end, grid, visited
    {
      && GridShaped() && visited != grid && visited.Length0 == rows && visited.Length1 == cols
      && |w| == rows && (forall y :: 0 <= y < rows ==> |w[y]| == cols)
      && (forall y, x :: 0 <= y < rows && 0 <= x < cols ==> grid[y, x] == w[y][x])
      && (forall y, x :: 0 <= y < rows && 0 <= x < cols ==> (visited[y, x] <==> Point(x, y) in seen))
      && (forall c :: c in stack ==> InBounds(c) && Reachable(w, playerPos, c))
      && (forall c :: c in seen ==> InBounds(c) && Reachable(w, playerPos, c))
      && NoDuplicates(expanded) && (forall c :: c in expanded <==> c in seen)
      && end !in seen
      && (seen == {} ==> stack == [playerPos])
      && (seen != {} ==> playerPos in seen)
      && Frontier(w, seen, stack)
    }

    /** The grid still shows `w`, and `expanded` lists distinct reachable cells other than the goal. */
    ghost predicate Searched(w: Walls, expanded: seq<Point>)
      reads this`grid, this`rows, this`cols, this`playerPos, this`end, grid
    {
      && GridShaped()
      && |w| == rows && (forall y :: 0 <= y < rows ==> |w[y]| == cols)
      && (forall y, x :: 0 <= y < rows && 0 <= x < cols ==> grid[y, x] == w[y][x])
      && NoDuplicates(expanded)
      && (forall c :: c in expanded ==> InBounds(c) && c != end && Reachable(w, playerPos, c))
    }

    /**
     * The search's handling of a popped cell other than the goal: unless it is already
     * visited, marks it and pushes its open, unvisited neighbours.
     */
    method Visit(current: Point, visited: array2<bool>, stack: seq<Point>, ghost w: Walls, ghost seen: set<Point>, ghost expanded: seq<Point>)
      returns (grown: seq<Point>, ghost seen': set<Point>, ghost expanded': seq<Point>)
      requires Searching(w, visited, stack + [current], seen, expanded)
      requires current != end
      modifies visited
      ensures Searching(w, visited, grown, seen', expanded')
      ensures seen' == seen + {current}
      ensures current in seen ==> grown == stack
    {
      assert current in stack + [current];
      grown, seen', expanded' := stack, seen, expanded;
      if !visited[current.y, current.x] {
        visited[current.y, current.x] := true;
        AppendFresh(expanded, current);
        seen' := seen + {current};
        expanded' := expanded + [current];
        grown := PushNeighbours(current, stack, visited, w, seen');
        FrontierAfterExpand(w, seen, stack, current, grown);
      } else {
        FrontierAfterSkip(w, seen, stack, current);
      }
    }

    /**
     * The start of the search: a fresh table with no cell visited and the player's cell
     * as the only pending cell.
     */
    method StartSearch() returns (visited: array2<bool>, ghost w: Walls)
      requires GridShaped() && InBounds(playerPos)
      ensures fresh(visited) && w == Walls()
      ensures Searching(w, visited, [playerPos], {}, [])
    {
      w := Walls();
      visited := new bool[rows, cols]((y, x) => false);
      ReachableFromItself(w, playerPos);
    }

    /** A search that ran out of pending cells without meeting the goal shows it unreachable. */
    lemma SearchExhausted(w: Walls, visited: array2<bool>, seen: set<Point>, expanded: seq<Point>)
      requires Searching(w, visited, [], seen, expanded)
      ensures !Reachable(w, playerPos, end)
    {
      assert Closed(w, seen) by {
        assert Frontier(w, seen, []);
      }
      ClosedRegionSeparates(w, seen, playerPos, end);
    }

    /**
     * One round of the search: pops the top cell; `reached` tells that it is the goal,
     * otherwise the cell is visited.
     */
    method SearchStep(visited: array2<bool>, stack: seq<Point>, ghost w: Walls, ghost seen: set<Point>, ghost expanded: seq<Point>)
      returns (rest: seq<Point>, reached: bool, ghost seen': set<Point>, ghost expanded': seq<Point>)
      requires |stack| > 0 && Searching(w, visited, stack, seen, expanded)
      modifies visited
      ensures reached ==> Reachable(w, playerPos, end) && seen' == seen && expanded' == expanded && |rest| < |stack|
      ensures reached ==> Searched(w, expanded')
      ensures !reached ==> Searching(w, visited, rest, seen', expanded')
      ensures !reached ==> (seen' == seen && |rest| < |stack|) || seen < seen'
      ensures !reached ==> seen' <= Cells()
    {
      var current := stack[|stack| - 1];
      rest := stack[..|stack| - 1];
      LastSplits(stack);
      assert current in stack;
      seen', expanded' := seen, expanded;
      reached := current == end;
      if !reached {
        rest, seen', expanded' := Visit(current, visited, rest, w, seen, expanded);
      }
    }

    /**
     * The depth-first search from the player's cell, round by round until the goal is popped
     * or the stack is empty; `found` tells whether the goal is reachable. `expanded` lists the
     * cells marked, in order.
     */
    method EnsurePathExists() returns (found: bool, ghost expanded: seq<Point>)
      requires GridShaped() && InBounds(playerPos)
      ensures found <==> Reachable(Walls(), playerPos, end)
      ensures NoDuplicates(expanded)
      ensures forall c :: c in expanded ==> InBounds(c) && c != end && Reachable(Walls(), playerPos, c)
    {
      var visited;
      ghost var w;
      visited, w := StartSearch();
      var stack := [playerPos];
      ghost var seen: set<Point> := {};
      ghost var cells := Cells();
      expanded := [];
      found := false;
      while |stack| > 0 && !found
        invariant !found ==> Searching(w, visited, stack, seen, expanded)
        invariant found ==> Reachable(w, playerPos, end) && Searched(w, expanded)
        invariant seen <= cells
        decreases cells - seen, |stack|
      {
        stack, found, seen, expanded := SearchStep(visited, stack, w, seen, expanded);
      }
      if !found {
        SearchExhausted(w, visited, seen, expanded);
      }
    }

    /**
     * The teleporter jump: the player goes to the other tile of the pair the tile at `pos`
     * belongs to (index + 1 from an even index, index - 1 from an odd one), if that index
     * exists. An absent `pos` has index -1, and no partner either.
     */
    method HandleTeleporter(pos: Point)
      modifies this`playerPos
      ensures playerPos == match TeleportPartner(teleporters, pos) { case Some(q) => q case None => old(playerPos) }
    {
      var index := IndexOf(teleporters, pos);
      var targetIndex := if index % 2 == 0 then index + 1 else index - 1;
      if 0 <= targetIndex < |teleporters| {
        playerPos := teleporters[targetIndex];
      }
    }

    /** A tile's effect on a valid level leaves it valid. */
    twostate lemma TileEffectKeepsValid(t: Point)
      requires old(Valid())
      requires unchanged(this`grid, this`rows, this`cols, this`end, this`traps, this`teleporters) && unchanged(grid)
      requires State() == TileEffect(old(State()), t).1
      ensures Valid()
    {
      forall q | q in old(traps) || q in old(teleporters) || q in old(keys) || q in old(locks)
        ensures q != end && IsValidMove(q.x, q.y)
      {
        assert old(IsTile(q));
      }
      RemoveSeparateTile(old(traps), old(teleporters), old(keys), old(locks), t);
    }

    /**
     * The tile effects of stepping onto `newPos`, in order: a trap ends the game, a teleporter
     * jumps, a key is picked up, and a lock is opened with the key or refuses the step.
     * `proceed` tells whether the step goes ahead and `trapped` that the game is over.
     */
    method HandleSpecialTiles(newPos: Point) returns (proceed: bool, trapped: bool)
      requires Valid()
      modifies this`playerPos, this`hasKey, this`keys, this`locks
      ensures Valid()
      ensures trapped <==> newPos in traps
      ensures (proceed, State()) == TileEffect(old(State()), newPos)
    {
      if newPos in traps {
        return false, true;
      }
      trapped := false;
      if newPos in teleporters {
        HandleTeleporter(newPos);
        TileEffectKeepsValid(newPos);
        return true, false;
      }
      if newPos in keys {
        hasKey := true;
        keys := RemoveFirst(keys, newPos);
      }
      if newPos in locks {
        if !hasKey {
          return false, false;
        }
        hasKey := false;
        locks := RemoveFirst(locks, newPos);
      }
      proceed := true;
      TileEffectKeepsValid(newPos);
    }

    /** The player stands on `target`, one move more, with `target` added to the trail. */
    method Advance(target: Point)
      requires Valid() && IsValidMove(target.x, target.y)
      modifies this`playerPos, this`moves, this`visitedCells
      ensures Valid()
      ensures State() == Stepped(old(State()), target)
    {
      playerPos := target;
      moves := moves + 1;
      visitedCells := visitedCells + [target];
    }

    /**
     * An arrow-key step by (dx, dy). A step off the grid or into a wall changes nothing; a trap
     * ends the game and changes nothing; a lock without a key refuses the step. Otherwise the
     * tile effects apply and then the player stands on the target cell, one move more, with
     * the cell added to the trail; this overrides a teleporter's jump, so the player stays on
     * the teleporter tile. The outcome then reports whether the level is complete.
     */
    method MovePlayer(dx: int, dy: int) returns (outcome: MoveOutcome)
      requires Valid()
      modifies this`playerPos, this`moves, this`visitedCells, this`hasKey, this`keys, this`locks
      ensures Valid()
      ensures (outcome, State()) == StepResult(old(State()), Point(old(playerPos).x + dx, old(playerPos).y + dy),
                                                IsValidMove(old(playerPos).x + dx, old(playerPos).y + dy), end, timeRemaining)
    {
      var newX := playerPos.x + dx;
      var newY := playerPos.y + dy;
      outcome := NoChange;
      if IsValidMove(newX, newY) {
        var newPos := Point(newX, newY);
        var proceed, trapped := HandleSpecialTiles(newPos);
        if trapped {
          outcome := GameOver;
        }
        if proceed {
          Advance(newPos);
          outcome := CheckLevelCompletion(playerPos, end, locks, timeRemaining);
        }
      }
    }

    /** One second of the countdown: `timeUp` when no time is left. */
    method Tick() returns (timeUp: bool)
      modifies this`timeRemaining
      ensures timeRemaining == old(timeRemaining) - 1
      ensures timeUp <==> timeRemaining <= 0
    {
      timeRemaining := timeRemaining - 1;
      timeUp := timeRemaining <= 0;
    }
  }
}
