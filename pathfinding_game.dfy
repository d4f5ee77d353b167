/**
 * The game window's bookkeeping around the panel: the level counter, the running score,
 * the keyboard mapping, and the routing of the panel's game-over, level-complete and
 * time-up signals. Labels, dialogs and the window itself are not modelled; the wall
 * density draws of every maze generated are the input `walls`.
 */
module Game {
  import opened Wrappers
  import opened Geometry
  import opened Maze

  /** The keys the window reacts to, and any other key. */
  datatype KeyCode = ArrowUp | ArrowDown | ArrowLeft | ArrowRight | LetterR | OtherKey

  /** The step an arrow key asks for; the other keys ask for none. */
  function KeyStep(key: KeyCode): (step: Option<(int, int)>)
    ensures step.None? <==> key.LetterR? || key.OtherKey?
    ensures step.Some? ==> Abs(step.value.0) + Abs(step.value.1) == 1
  {
    match key
    case ArrowUp => Some((0, -1))
    case ArrowDown => Some((0, 1))
    case ArrowLeft => Some((-1, 0))
    case ArrowRight => Some((1, 0))
    case _ => None
  }

  /** Exactly the four arrow keys ask for a step, and each step leads to a neighbouring cell. */
  lemma KeyStepIsNeighbour(key: KeyCode, p: Point)
    ensures KeyStep(key).Some? <==> key.ArrowUp? || key.ArrowDown? || key.ArrowLeft? || key.ArrowRight?
    ensures KeyStep(key).Some? ==> Point(p.x + KeyStep(key).value.0, p.y + KeyStep(key).value.1) in Neighbours(p)
  {
  }

  /** Every neighbouring cell is the step of one arrow key. */
  lemma NeighbourHasKey(p: Point, q: Point)
    requires q in Neighbours(p)
    ensures exists key :: KeyStep(key).Some? && q == Point(p.x + KeyStep(key).value.0, p.y + KeyStep(key).value.1)
  {
    if q == Point(p.x, p.y + 1) {
      assert KeyStep(ArrowDown) == Some((0, 1));
    } else if q == Point(p.x + 1, p.y) {
      assert KeyStep(ArrowRight) == Some((1, 0));
    } else if q == Point(p.x, p.y - 1) {
      assert KeyStep(ArrowUp) == Some((0, -1));
    } else {
      assert KeyStep(ArrowLeft) == Some((-1, 0));
    }
  }

  /** The score of a completed level: 100 points per level number and 10 per second left. */
  function CalculateScore(level: int, timeRemaining: int): (score: int)
    ensures score % 10 == 0
    ensures timeRemaining >= 0 ==> score >= 100 * level
  {
    level * 100 + timeRemaining * 10
  }

  /** Level 3 finished with 45 seconds left scores 750. */
  lemma ScoreExample()
    ensures CalculateScore(3, 45) == 750
  {
  }

  /**
   * A later level or more time left scores more, and a level finished with time to
   * spare scores at least 100 points per level number.
   */
  lemma ScoreMonotone(level: int, level': int, time: int, time': int)
    requires level <= level' && time <= time'
    ensures CalculateScore(level, time) <= CalculateScore(level', time')
    ensures level < level' || time < time' ==> CalculateScore(level, time) < CalculateScore(level', time')
    ensures time >= 0 ==> CalculateScore(level, time) >= 100 * level
  {
  }

  class PathfindingGame {
    const panel: GamePanel
    var currentLevel: int
    var totalScore: int

    /** The panel holds a maze for the current level, which is at least 1. */
    ghost predicate Valid()
      reads this, panel, panel.grid
    {
      && panel.Valid()
      && currentLevel >= 1
      && panel.rows == 15 + 2 * currentLevel && panel.cols == 20 + 2 * currentLevel
    }

    /** A new window: level 1, no score, and the first maze generated. */
    constructor (walls: (int, int) -> bool, random: seq<nat>)
      ensures Valid() && fresh(panel)
      ensures currentLevel == 1 && totalScore == 0 && panel.Generated(1, walls)
      ensures panel.moves == 0
    {
      panel := new GamePanel(random);
      currentLevel := 1;
      totalScore := 0;
      new;
      var _, _ := panel.GenerateNewMaze(currentLevel, walls);
    }

    /**
     * The level is complete with `timeRemaining` seconds left: its score, computed with the
     * level just finished, is added; the level goes up by one; and its maze is generated.
     */
    method LevelCompleted(timeRemaining: int, walls: (int, int) -> bool)
      requires Valid()
      modifies this, panel
      ensures Valid()
      ensures totalScore == old(totalScore) + CalculateScore(old(currentLevel), timeRemaining)
      ensures timeRemaining >= 0 ==> totalScore >= old(totalScore) + 100 * old(currentLevel) > old(totalScore)
      ensures currentLevel == old(currentLevel) + 1 && panel.Generated(currentLevel, walls)
      ensures panel.moves == old(panel.moves)
    {
      ScoreMonotone(currentLevel, currentLevel, timeRemaining, timeRemaining);
      var levelScore := CalculateScore(currentLevel, timeRemaining);
      totalScore := totalScore + levelScore;
      currentLevel := currentLevel + 1;
      var _, _ := panel.GenerateNewMaze(currentLevel, walls);
    }

    /** Back to level 1 with no score, and its maze generated; the move counter carries on. */
    method RestartGame(walls: (int, int) -> bool)
      modifies this, panel
      ensures Valid()
      ensures currentLevel == 1 && totalScore == 0 && panel.Generated(1, walls)
      ensures panel.moves == old(panel.moves)
    {
      currentLevel := 1;
      totalScore := 0;
      var _, _ := panel.GenerateNewMaze(currentLevel, walls);
    }

    /**
     * A key press: an arrow key moves the player by its step, the R key restarts the game,
     * and any other key does nothing.
     */
    method KeyPressed(key: KeyCode, walls: (int, int) -> bool) returns (outcome: MoveOutcome)
      requires Valid()
      modifies this, panel
      ensures Valid()
      ensures KeyStep(key).None? && !key.LetterR? ==> outcome == NoChange && unchanged(this, panel)
      ensures key.LetterR? ==> && outcome == NoChange && currentLevel == 1 && totalScore == 0 && panel.Generated(1, walls)
                               && panel.moves == old(panel.moves)
      ensures KeyStep(key).Some? ==> Moving(KeyStep(key).value.0, KeyStep(key).value.1, walls, outcome)
    {
      outcome := NoChange;
      match KeyStep(key) {
        case Some((dx, dy)) =>
          outcome := Move(dx, dy, walls);
        case None =>
          if key == LetterR {
            RestartGame(walls);
          }
      }
    }

    /**
     * What a step by (dx, dy) did, `outcome` being its signal: the panel's step function
     * decides the signal; a refused step or a plain move leaves the level and the score
     * alone, the panel having taken the step; a game over restarts the game; a completed
     * level scores and starts the next one.
     */
    twostate predicate Moving(dx: int, dy: int, walls: (int, int) -> bool, outcome: MoveOutcome)
      reads this, panel, panel.grid
      requires old(panel.Valid())
    {
      var target := Point(old(panel.playerPos.x) + dx, old(panel.playerPos.y) + dy);
      var (signal, after) := StepResult(old(panel.State()), target, old(panel.IsValidMove(target.x, target.y)),
                                        old(panel.end), old(panel.timeRemaining));
      && outcome == signal
      && (outcome == NoChange || outcome == Moved ==>
            && currentLevel == old(currentLevel) && totalScore == old(totalScore) && panel.State() == after
            && panel.SameLevel() && panel.timeRemaining == old(panel.timeRemaining))
      && (outcome == GameOver ==>
            currentLevel == 1 && totalScore == 0 && panel.Generated(1, walls) && panel.moves == old(panel.moves))
      && (outcome.LevelCompleted? ==>
            && totalScore == old(totalScore) + CalculateScore(old(currentLevel), outcome.timeRemaining)
            && currentLevel == old(currentLevel) + 1 && panel.Generated(currentLevel, walls)
            && panel.moves == old(panel.moves) + 1)
    }

    /**
     * The panel's move by (dx, dy), with the window's answer to its signal: a game over
     * restarts the game and a completed level starts the next one.
     */
    method Move(dx: int, dy: int, walls: (int, int) -> bool) returns (outcome: MoveOutcome)
      requires Valid()
      modifies this, panel
      ensures Valid()
      ensures Moving(dx, dy, walls, outcome)
    {
      outcome := panel.MovePlayer(dx, dy);
      if outcome == GameOver {
        RestartGame(walls);
      } else if outcome.LevelCompleted? {
        LevelCompleted(outcome.timeRemaining, walls);
      }
    }

    /** One second of the countdown; when time is up the game is over and restarts. */
    method TimerFired(walls: (int, int) -> bool) returns (timeUp: bool)
      requires Valid()
      modifies this, panel
      ensures Valid()
      ensures timeUp <==> old(panel.timeRemaining) <= 1
      ensures timeUp ==> currentLevel == 1 && totalScore == 0 && panel.Generated(1, walls) && panel.moves == old(panel.moves)
      ensures !timeUp ==> && panel.timeRemaining == old(panel.timeRemaining) - 1
                          && currentLevel == old(currentLevel) && totalScore == old(totalScore)
                          && panel.State() == old(panel.State()) && panel.SameLevel()
    {
      timeUp := panel.Tick();
      if timeUp {
        RestartGame(walls);
      }
    }
  }
}
