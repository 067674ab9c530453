/** The pure rules of the snake engine: the grid, directions and the head
    step, the collision test, the speed staircase, bounded-retry food
    placement over a supplied stream of random cells, and the whole tick as
    a function on a snapshot of the engine's state. */
module SnakeRules {
  import opened Shared

  /** The grid is BoardSize by BoardSize cells. */
  const BoardSize: int := 20

  /** Food placement gives up after this many draws (the number of cells). */
  const MaxFoodAttempts: nat := 400

  const StartSpeed: int := 150
  const MinSpeed: int := 50

  datatype Direction = Up | Down | Left | Right

  datatype Pos = Pos(x: int, y: int)

  function Opposite(d: Direction): (o: Direction)
    ensures o != d
  {
    match d
    case Up => Down
    case Down => Up
    case Left => Right
    case Right => Left
  }

  /** The cell one step from `p` along `d`; rows grow downwards. */
  function Step(p: Pos, d: Direction): Pos
  {
    match d
    case Up => Pos(p.x, p.y - 1)
    case Down => Pos(p.x, p.y + 1)
    case Left => Pos(p.x - 1, p.y)
    case Right => Pos(p.x + 1, p.y)
  }

  predicate InGrid(p: Pos)
  {
    0 <= p.x < BoardSize && 0 <= p.y < BoardSize
  }

  /** A head collides when it leaves the grid or lands on any segment of the
      body as it was before the move, the tail included. */
  predicate Collides(body: seq<Pos>, head: Pos)
  {
    !InGrid(head) || head in body
  }

  /** Any head off the grid collides, and so does the cell the tail still
      occupies: the check runs against the whole pre-move body, so a snake
      may not follow its own tail into the cell it is about to vacate. */
  lemma CollidesCases(body: seq<Pos>, head: Pos)
    ensures !InGrid(head) ==> Collides(body, head)
    ensures |body| > 0 ==> Collides(body, body[|body| - 1])
  {
  }

  predicate Distinct(body: seq<Pos>)
  {
    forall i, j :: 0 <= i < j < |body| ==> body[i] != body[j]
  }

  predicate AllInGrid(body: seq<Pos>)
  {
    forall i :: 0 <= i < |body| ==> InGrid(body[i])
  }

  /** The direction a key asks for: arrows and w/a/s/d in both cases. */
  function KeyDirection(key: string): (d: Option<Direction>)
    ensures d.Some? <==> key in ControlKeys
  {
    if key == "ArrowUp" || key == "w" || key == "W" then Some(Up)
    else if key == "ArrowDown" || key == "s" || key == "S" then Some(Down)
    else if key == "ArrowLeft" || key == "a" || key == "A" then Some(Left)
    else if key == "ArrowRight" || key == "d" || key == "D" then Some(Right)
    else None
  }

  // ---------------------------------------------------------------------
  // Speed

  /** The tick period a score earns when the speed started at 150 ms and
      lost 10 ms, down to 50 ms, at every multiple of 50 points. */
  function SpeedFor(score: nat): (speed: int)
    ensures speed % 10 == 0
    ensures score < 50 ==> speed == StartSpeed
    ensures score >= 500 ==> speed == MinSpeed
  {
    Max(MinSpeed, StartSpeed - 10 * (score / 50))
  }

  /** The staircase stays between 50 and 150 ms. */
  lemma SpeedBounds(score: nat)
    ensures MinSpeed <= SpeedFor(score) <= StartSpeed
  {
    assert score / 50 >= 0;
  }

  /** Eating ten points from a multiple of ten moves the staircase exactly as
      the engine does: one step of 10 ms, floored at 50, when the new score
      is a multiple of 50, and no change otherwise. */
  lemma SpeedStep(score: nat)
    requires score % 10 == 0
    ensures (score + 10) % 50 == 0 ==> SpeedFor(score + 10) == Max(MinSpeed, SpeedFor(score) - 10)
    ensures (score + 10) % 50 != 0 ==> SpeedFor(score + 10) == SpeedFor(score)
  {
    var q := score / 50;
    var r := score % 50;
    assert score == 50 * q + r && 0 <= r < 50;
    if r == 40 {
      assert score + 10 == 50 * (q + 1);
      assert (score + 10) / 50 == q + 1;
    } else {
      assert r + 10 < 50 by {
        assert r % 10 == 0 by {
          assert score % 10 == (50 * q + r) % 10;
        }
      }
      assert score + 10 == 50 * q + (r + 10);
      assert (score + 10) / 50 == q && (score + 10) % 50 == r + 10;
    }
  }

  // ---------------------------------------------------------------------
  // Food placement

  /** A random stream long enough for the worst case: the placement draws
      at most MaxFoodAttempts + 1 cells, each inside the grid. */
  predicate DrawsOk(draws: seq<Pos>)
  {
    |draws| > MaxFoodAttempts && forall i :: 0 <= i < |draws| ==> InGrid(draws[i])
  }

  /** The index of the first of the allowed draws, from `from` on, that is
      not on the body; MaxFoodAttempts when every allowed draw is. */
  function FreeDraw(body: seq<Pos>, draws: seq<Pos>, from: nat): (k: nat)
    requires |draws| >= MaxFoodAttempts && from <= MaxFoodAttempts
    ensures from <= k <= MaxFoodAttempts
    ensures forall i :: from <= i < k ==> draws[i] in body
    ensures k < MaxFoodAttempts ==> draws[k] !in body
    decreases MaxFoodAttempts - from
  {
    if from == MaxFoodAttempts then from
    else if draws[from] !in body then from
    else FreeDraw(body, draws, from + 1)
  }

  /** Where the food ends up: the first free draw, or the old food when the
      placement gives up. */
  function PlacedFood(body: seq<Pos>, food: Option<Pos>, draws: seq<Pos>): (f: Option<Pos>)
    requires |draws| >= MaxFoodAttempts
    ensures f == food || (f.Some? && f.value !in body
                          && exists k :: 0 <= k < MaxFoodAttempts && f.value == draws[k])
  {
    var k := FreeDraw(body, draws, 0);
    if k < MaxFoodAttempts then Some(draws[k]) else food
  }

  /** Placement either succeeds with a free, in-grid cell taken from the
      first MaxFoodAttempts draws, or finds every one of those draws on the
      body and leaves the food as it was. */
  lemma PlacedFoodSpec(body: seq<Pos>, food: Option<Pos>, draws: seq<Pos>)
    requires DrawsOk(draws)
    ensures var f := PlacedFood(body, food, draws);
      || (f.Some? && f.value !in body && InGrid(f.value)
          && exists k :: 0 <= k < MaxFoodAttempts && f.value == draws[k])
      || (f == food && forall i :: 0 <= i < MaxFoodAttempts ==> draws[i] in body)
  {
    var k := FreeDraw(body, draws, 0);
    if k < MaxFoodAttempts {
      assert PlacedFood(body, food, draws).value == draws[k];
    }
  }

  // ---------------------------------------------------------------------
  // Engine state and the tick

  datatype SnakeState = SnakeState(
    snake: seq<Pos>,
    food: Option<Pos>,
    direction: Direction,
    nextDirection: Direction,
    score: nat,
    highScore: nat,
    speed: int,
    isRunning: bool,
    isPaused: bool,
    timer: Option<int>,
    cues: seq<Cue>)

  /** What holds between steps: a non-empty snake of distinct in-grid
      segments, a queued direction that is
      never the reverse of the committed one, a score in steps of ten with
      the speed on its staircase, and pausing only while running. */
  ghost predicate Inv(s: SnakeState)
  {
    && |s.snake| > 0 && Distinct(s.snake) && AllInGrid(s.snake)
    && s.nextDirection != Opposite(s.direction)
    && s.score % 10 == 0 && s.speed == SpeedFor(s.score)
    && (s.isPaused ==> s.isRunning)
  }

  /** A freshly reset game, whatever its food, flags and timer, satisfies
      the invariant. */
  lemma ResetInv(s: SnakeState)
    requires s.snake == [Pos(BoardSize / 2, BoardSize / 2)]
    requires s.nextDirection == s.direction && s.score == 0 && s.speed == StartSpeed
    requires !s.isPaused
    ensures Inv(s)
  {
    assert SpeedFor(0) == StartSpeed;
  }

  /** Stopping the game: both flags off, the timer cleared, and the high
      score replaced when the score beats it. */
  function Ended(s: SnakeState): SnakeState
  {
    s.(isRunning := false, isPaused := false, timer := None, highScore := Max(s.highScore, s.score))
  }

  /** One tick. Nothing happens while stopped or paused. Otherwise the queued
      direction is committed and the head stepped; a collision requests the
      game-over cue and ends the game with the snake, food and score as they
      were; any other head is taken by `Advanced`. */
  function Tick(s: SnakeState, draws: seq<Pos>): (t: SnakeState)
    requires |s.snake| > 0 && |draws| >= MaxFoodAttempts
    ensures |t.snake| > 0 && t.nextDirection == s.nextDirection
    ensures t.score == s.score || t.score == s.score + 10
    ensures t.highScore >= s.highScore && s.cues <= t.cues
    ensures t != s ==> s.isRunning && !s.isPaused
  {
    if !s.isRunning || s.isPaused then s
    else
      var d := s.nextDirection;
      var head := Step(s.snake[0], d);
      if Collides(s.snake, head) then
        Ended(s.(direction := d, cues := s.cues + [Cue.GameOver]))
      else
        Advanced(s.(direction := d), head, draws)
  }

  /** The snake moving onto a head that does not collide: the head is
      prepended. With no food on the board the step stops there (the engine
      fails reading the missing food). On the food the snake keeps its tail,
      scores ten, requests the eat cue and, at a multiple of 50 points,
      speeds up, requests the level-up cue and restarts the running timer at
      the new speed; then new food is placed. Elsewhere the tail is dropped. */
  function Advanced(s: SnakeState, head: Pos, draws: seq<Pos>): SnakeState
    requires |s.snake| > 0 && |draws| >= MaxFoodAttempts
  {
    if s.food.None? then
      s.(snake := [head] + s.snake)
    else if head == s.food.value then
      var t := Fed(s, head);
      t.(food := PlacedFood(t.snake, t.food, draws))
    else
      s.(snake := [head] + s.snake[..|s.snake| - 1])
  }

  /** The snake has eaten: it keeps its tail, the score gains 10, and every
      50 points the speed drops by 10 towards MinSpeed, the level-up cue
      follows the eat cue and the game restarts at the new speed. The food
      is not yet replaced. */
  function Fed(s: SnakeState, head: Pos): SnakeState
  {
    var score' := s.score + 10;
    var up := score' % 50 == 0;
    var speed' := if up then Max(MinSpeed, s.speed - 10) else s.speed;
    s.(snake := [head] + s.snake, score := score', speed := speed',
       isRunning := if up then true else s.isRunning,
       isPaused := if up then false else s.isPaused,
       timer := if up then Some(speed') else s.timer,
       cues := s.cues + [Cue.Eat] + (if up then [Cue.LevelUp] else []))
  }

  // ---------------------------------------------------------------------
  // Properties of the tick

  lemma PrependDistinct(head: Pos, body: seq<Pos>)
    requires Distinct(body) && head !in body
    ensures Distinct([head] + body)
  {
    var b := [head] + body;
    forall i, j | 0 <= i < j < |b| ensures b[i] != b[j] {
      assert b[j] == body[j - 1];
      if i > 0 {
        assert b[i] == body[i - 1];
      }
    }
  }

  lemma DropLastDistinct(body: seq<Pos>)
    requires Distinct(body) && |body| > 0
    ensures Distinct(body[..|body| - 1])
    ensures AllInGrid(body) ==> AllInGrid(body[..|body| - 1])
  {
  }

  /** Every tick keeps the invariant: in particular the segments stay
      pairwise distinct and inside the grid, the queued direction never
      reverses the committed one, and the speed stays on its staircase. */
  lemma TickKeepsInv(s: SnakeState, draws: seq<Pos>)
    requires Inv(s) && DrawsOk(draws)
    ensures Inv(Tick(s, draws))
  {
    if s.isRunning && !s.isPaused {
      var d := s.nextDirection;
      var head := Step(s.snake[0], d);
      if !Collides(s.snake, head) {
        AdvancedKeepsInv(s.(direction := d), head, draws);
      }
    }
  }

  /** Moving onto an in-grid head off the body keeps the invariant, whether
      the snake eats or shifts. */
  lemma AdvancedKeepsInv(s: SnakeState, head: Pos, draws: seq<Pos>)
    requires Inv(s) && |draws| >= MaxFoodAttempts
    requires InGrid(head) && head !in s.snake
    ensures Inv(Advanced(s, head, draws))
  {
    PrependDistinct(head, s.snake);
    if s.food.Some? && head == s.food.value {
      FedKeepsInv(s, head);
      var t := Fed(s, head);
      assert Advanced(s, head, draws) == t.(food := PlacedFood(t.snake, t.food, draws));
    } else if s.food.Some? {
      DropLastDistinct(s.snake);
      PrependDistinct(head, s.snake[..|s.snake| - 1]);
    }
  }

  /** Eating onto an in-grid head off the body keeps the invariant. */
  lemma FedKeepsInv(s: SnakeState, head: Pos)
    requires Inv(s) && InGrid(head) && Distinct([head] + s.snake)
    ensures Inv(Fed(s, head))
  {
    SpeedStep(s.score);
  }

  /** A tick of a running, unpaused game commits the queued direction and,
      unless it collides, puts the new head exactly one cell from the old
      head along that direction. */
  lemma TickMovesHead(s: SnakeState, draws: seq<Pos>)
    requires Inv(s) && DrawsOk(draws) && s.isRunning && !s.isPaused
    ensures var t := Tick(s, draws);
      var head := Step(s.snake[0], s.nextDirection);
      && t.direction == s.nextDirection
      && (!Collides(s.snake, head) ==>
            t.snake[0] == head
            && (head.x - s.snake[0].x) * (head.x - s.snake[0].x)
               + (head.y - s.snake[0].y) * (head.y - s.snake[0].y) == 1)
  {
  }

  /** A running game stops on a tick exactly when the new head collides,
      and then the snake, the food and the score are those before the tick
      while the timer is cleared and the high score recorded. */
  lemma TickCollision(s: SnakeState, draws: seq<Pos>)
    requires Inv(s) && DrawsOk(draws) && s.isRunning && !s.isPaused
    ensures var t := Tick(s, draws);
      var head := Step(s.snake[0], s.nextDirection);
      && (!t.isRunning <==> Collides(s.snake, head))
      && (Collides(s.snake, head) ==>
            t.snake == s.snake && t.food == s.food && t.score == s.score
            && !t.isPaused && t.timer == None && t.highScore == Max(s.highScore, s.score)
            && t.cues == s.cues + [Cue.GameOver])
  {
  }

  /** Away from the food the snake shifts and keeps its length; on the food
      it grows by exactly one segment and scores exactly ten. */
  lemma TickLength(s: SnakeState, draws: seq<Pos>)
    requires Inv(s) && DrawsOk(draws) && s.isRunning && !s.isPaused && s.food.Some?
    requires !Collides(s.snake, Step(s.snake[0], s.nextDirection))
    ensures var t := Tick(s, draws);
      var head := Step(s.snake[0], s.nextDirection);
      && (head != s.food.value ==>
            |t.snake| == |s.snake| && t.snake == [head] + s.snake[..|s.snake| - 1] && t.score == s.score)
      && (head == s.food.value ==>
            |t.snake| == |s.snake| + 1 && t.snake == [head] + s.snake && t.score == s.score + 10)
  {
  }

  /** Eating moves the speed one step of 10 ms, floored at 50, exactly when
      the new score is a multiple of 50; the speed stays within [50, 150]. */
  lemma TickSpeed(s: SnakeState, draws: seq<Pos>)
    requires Inv(s) && DrawsOk(draws)
    ensures var t := Tick(s, draws);
      && MinSpeed <= t.speed <= StartSpeed
      && (t.score == s.score + 10 && t.score % 50 == 0 ==> t.speed == Max(MinSpeed, s.speed - 10))
      && (t.score % 50 != 0 || t.score == s.score ==> t.speed == s.speed)
  {
    TickKeepsInv(s, draws);
    SpeedBounds(Tick(s, draws).score);
  }
}
