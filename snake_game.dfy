/** The snake engine as an object whose fields change one step at a time.
    The tick is proved equal to `Tick` on the snapshot `State()`; the
    random cells the engine draws for food arrive as the stream `draws`. */
module Snake {
  import opened Shared
  import opened SnakeRules

  class SnakeGame {
    var snake: seq<Pos>
    var food: Option<Pos>
    var direction: Direction
    var nextDirection: Direction
    var score: nat
    var highScore: nat
    var speed: int
    var isRunning: bool
    var isPaused: bool
    var timer: Option<int>
    var cues: seq<Cue>

    ghost function State(): SnakeState
      reads this
    {
      SnakeState(snake, food, direction, nextDirection, score, highScore, speed,
                 isRunning, isPaused, timer, cues)
    }

    ghost predicate Valid()
      reads this
    {
      Inv(State())
    }

    /** A new engine: the stored high score is what persistence returned (0
        when absent), there is no food and no timer yet, and the first reset
        runs at once; `showing` says whether the game's screen is visible. */
    constructor (storedHighScore: nat, showing: bool, draws: seq<Pos>)
      requires DrawsOk(draws)
      ensures Valid()
      ensures snake == [Pos(BoardSize / 2, BoardSize / 2)]
      ensures direction == Right && nextDirection == Right
      ensures score == 0 && speed == StartSpeed && highScore == storedHighScore
      ensures food == PlacedFood(snake, None, draws)
      ensures isRunning == showing && !isPaused
      ensures timer == (if showing then Some(StartSpeed) else None)
      ensures cues == []
    {
      snake := [];
      food := None;
      direction := Right;
      nextDirection := Right;
      score := 0;
      highScore := storedHighScore;
      speed := StartSpeed;
      timer := None;
      isRunning := false;
      isPaused := false;
      cues := [];
      new;
      ResetGame(showing, draws);
    }

    /** A one-segment snake in the centre heading right, no score, the
        starting speed, stopped and unpaused; then food is placed, and the
        game starts when its screen is showing. */
    method ResetGame(showing: bool, draws: seq<Pos>)
      requires DrawsOk(draws)
      modifies this
      ensures Valid()
      ensures snake == [Pos(BoardSize / 2, BoardSize / 2)]
      ensures direction == Right && nextDirection == Right
      ensures score == 0 && speed == StartSpeed
      ensures food == PlacedFood(snake, old(food), draws)
      ensures isRunning == showing && !isPaused
      ensures timer == (if showing then Some(StartSpeed) else old(timer))
      ensures highScore == old(highScore) && cues == old(cues)
    {
      var center := BoardSize / 2;
      snake := [Pos(center, center)];
      direction := Right;
      nextDirection := Right;
      score := 0;
      speed := StartSpeed;
      isRunning := false;
      isPaused := false;
      ghost var r := State();
      SpawnFood(draws);
      assert State() == r.(food := PlacedFood(r.snake, r.food, draws));
      if showing {
        StartGame();
      }
      ResetInv(State());
    }

    /** Marks the game running and unpaused and (re)schedules the tick timer
        at the current speed. */
    method StartGame()
      modifies this`isRunning, this`isPaused, this`timer
      ensures isRunning && !isPaused && timer == Some(speed)
    {
      isRunning := true;
      isPaused := false;
      timer := Some(speed);
    }

    /** Flips the pause flag, but only while the game runs. */
    method TogglePause()
      requires Valid()
      modifies this`isPaused
      ensures Valid()
      ensures isPaused == (if isRunning then !old(isPaused) else old(isPaused))
    {
      if !isRunning {
        return;
      }
      isPaused := !isPaused;
    }

    /** One tick: see `Tick`. */
    method GameLoop(draws: seq<Pos>)
      requires Valid() && DrawsOk(draws)
      modifies this
      ensures Valid()
      ensures State() == Tick(old(State()), draws)
    {
      if !isRunning || isPaused {
        return;
      }
      ghost var s := State();
      TickKeepsInv(s, draws);
      direction := nextDirection;
      var head := Step(snake[0], direction);
      if Collides(snake, head) {
        cues := cues + [Cue.GameOver];
        GameOver();
        return;
      }
      Advance(head, draws);
    }

    /** The rest of the tick once the new head is known not to collide:
        see `Advanced`. */
    method Advance(head: Pos, draws: seq<Pos>)
      requires |snake| > 0 && |draws| > MaxFoodAttempts
      modifies this
      ensures State() == Advanced(old(State()), head, draws)
    {
      ghost var s := State();
      snake := [head] + snake;
      if food.None? {
        // The engine fails here reading the coordinates of the missing food;
        // nothing after the new head takes effect.
        return;
      }
      if head == food.value {
        score := score + 10;
        cues := cues + [Cue.Eat];
        if score % 50 == 0 {
          speed := Max(MinSpeed, speed - 10);
          cues := cues + [Cue.LevelUp];
          StartGame();
        }
        ghost var fed := State();
        assert fed == Fed(s, head);
        SpawnFood(draws);
        assert State() == fed.(food := PlacedFood(fed.snake, fed.food, draws));
      } else {
        snake := snake[..|snake| - 1];
      }
    }

    /** Draws candidate cells until one is off the snake and places the food
        there; after more than MaxFoodAttempts draws it gives up and leaves
        the food as it was. */
    method SpawnFood(draws: seq<Pos>)
      requires |draws| > MaxFoodAttempts
      modifies this`food
      ensures food == PlacedFood(snake, old(food), draws)
    {
      var attempts := 0;
      var newFood: Pos;
      while true
        invariant 0 <= attempts <= MaxFoodAttempts
        invariant forall i :: 0 <= i < attempts ==> draws[i] in snake
        decreases MaxFoodAttempts - attempts
      {
        newFood := draws[attempts];
        attempts := attempts + 1;
        if attempts > MaxFoodAttempts {
          assert FreeDraw(snake, draws, 0) == MaxFoodAttempts;
          return;
        }
        if newFood !in snake {
          break;
        }
      }
      assert FreeDraw(snake, draws, 0) == attempts - 1;
      food := Some(newFood);
    }

    /** Stops the game and its timer and records a new high score. */
    method GameOver()
      modifies this`isRunning, this`isPaused, this`timer, this`highScore
      ensures !isRunning && !isPaused && timer == None
      ensures highScore == Max(old(highScore), score)
    {
      isRunning := false;
      isPaused := false;
      timer := None;
      var isNewHighScore := SaveHighScore();
    }

    /** Replaces the high score when the current score beats it and says
        whether it did. */
    method SaveHighScore() returns (isNew: bool)
      modifies this`highScore
      ensures isNew == (score > old(highScore))
      ensures highScore == Max(old(highScore), score)
    {
      if score > highScore {
        highScore := score;
        return true;
      }
      return false;
    }

    /** While the game runs unpaused, a direction key queues its direction
        and requests the move cue, unless it reverses the committed
        direction; any other key, or any key while stopped or paused, does
        nothing. */
    method HandleInput(key: string)
      requires Valid()
      modifies this`nextDirection, this`cues
      ensures Valid()
      ensures nextDirection != Opposite(direction)
      ensures var d := KeyDirection(key);
        if old(isRunning) && !old(isPaused) && d.Some? && direction != Opposite(d.value)
        then nextDirection == d.value && cues == old(cues) + [Cue.Move]
        else nextDirection == old(nextDirection) && cues == old(cues)
    {
      if !isRunning || isPaused {
        return;
      }
      var input := KeyDirection(key);
      if input.Some? && direction != Opposite(input.value) {
        nextDirection := input.value;
        cues := cues + [Cue.Move];
      }
    }
  }
}
