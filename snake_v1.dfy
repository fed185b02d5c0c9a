/**
 * Version 1.0 of the game (snake-version1.0.py): the snake and the food
 * carry a difficulty, the food expires after a difficulty-dependent number
 * of ticks, and the game can be paused.
 */
module SnakeV1 {
  import opened Grid
  import opened Rules

  /** The level chosen in the menu, which only ever sets "easy", "medium" or "hard". */
  datatype Difficulty = Easy | Medium | Hard

  /** Points for one food (`food_value`). */
  function FoodValue(d: Difficulty): (v: int)
    ensures v in {10, 15, 20}
  {
    match d
    case Easy => 10
    case Medium => 15
    case Hard => 20
  }

  /** Ticks a food lives (`get_max_timer`); the "easy" level has a finite lifetime too. */
  function MaxTimer(d: Difficulty): (m: int)
    ensures m in {150, 200, 300}
    ensures m > 1
  {
    match d
    case Easy => 300
    case Medium => 200
    case Hard => 150
  }

  /**
   * A harder level pays more per food and lets food expire sooner. With
   * the value sets above this fixes the table: 10, 15, 20 points and 300,
   * 200, 150 ticks for easy, medium, hard.
   */
  lemma HarderPaysMoreAndExpiresSooner()
    ensures FoodValue(Easy) < FoodValue(Medium) < FoodValue(Hard)
    ensures MaxTimer(Easy) > MaxTimer(Medium) > MaxTimer(Hard)
  {
  }

  /** The food's colour, which tells how long it has left. */
  datatype Color = Red | Orange | PaleRed

  function Staleness(c: Color): nat {
    match c
    case Red => 0
    case Orange => 1
    case PaleRed => 2
  }

  /**
   * `get_color`: red while less than 30% of the lifetime has passed,
   * orange below 60%, pale red afterwards. The comparisons are done in
   * integers; the ensures state them as exact ratios.
   */
  function FoodColor(timer: int, maxTimer: int): (c: Color)
    requires maxTimer > 0
    ensures c == Red <==> (timer as real) < 0.3 * (maxTimer as real)
    ensures c == PaleRed <==> (timer as real) >= 0.6 * (maxTimer as real)
  {
    if 10 * timer < 3 * maxTimer then Red
    else if 10 * timer < 6 * maxTimer then Orange
    else PaleRed
  }

  /** As the timer runs, the colour only ever goes from fresh towards stale. */
  lemma FoodColorNeverFreshens(t1: int, t2: int, maxTimer: int)
    requires maxTimer > 0 && t1 <= t2
    ensures Staleness(FoodColor(t1, maxTimer)) <= Staleness(FoodColor(t2, maxTimer))
  {
  }

  class Snake {
    const difficulty: Difficulty
    var length: int
    var positions: seq<Cell>
    var direction: Dir
    var score: int
    var paused: bool
    var foodValue: int

    /** The body is never longer than the target length and stays on the grid. */
    ghost predicate Valid()
      reads this
    {
      && 3 <= length
      && 1 <= |positions| <= length
      && AllInBounds(positions)
      && 0 <= score
      && foodValue == FoodValue(difficulty)
    }

    constructor (difficulty: Difficulty, initialDir: Dir)
      ensures Valid() && this.difficulty == difficulty
      ensures length == 3 && positions == [Center()] && direction == initialDir
      ensures score == 0 && !paused
    {
      this.difficulty := difficulty;
      new;
      Reset(initialDir);
    }

    /** `reset`: the random starting heading is the caller's `initialDir`. */
    method Reset(initialDir: Dir)
      modifies this
      ensures Valid()
      ensures length == 3 && positions == [Center()] && direction == initialDir
      ensures score == 0 && !paused && foodValue == FoodValue(difficulty)
    {
      length := 3;
      positions := [Center()];
      direction := initialDir;
      score := 0;
      paused := false;
      foodValue := FoodValue(difficulty);
    }

    /** `move`: nothing while paused; otherwise the body advances one cell. */
    method Move()
      requires Valid()
      modifies this`positions
      ensures Valid()
      ensures positions == if paused then old(positions) else Advance(old(positions), direction, length)
    {
      if paused {
        return;
      }
      var newHead := Step(positions[0], direction);
      positions := [newHead] + positions;
      if |positions| > length {
        positions := positions[..|positions| - 1];
      }
    }

    /** `grow`: the body catches up on the next moves; the score rises by the level's food value. */
    method Grow()
      requires Valid()
      modifies this`length, this`score
      ensures Valid()
      ensures length == old(length) + 1 && score == old(score) + FoodValue(difficulty)
    {
      length := length + 1;
      score := score + foodValue;
    }

    /**
     * `check_collision`: on the hard level a head off the grid is fatal,
     * and on every level a head that meets another body cell is. Since
     * `move` always wraps, the head is on the grid and only the second
     * test can decide.
     */
    function CheckCollision(): (hit: bool)
      reads this
      requires |positions| >= 1
      ensures InBounds(positions[0]) ==>
        (hit <==> exists i :: 1 <= i < |positions| && positions[i] == positions[0])
    {
      if difficulty == Hard && !InBounds(positions[0]) then true
      else positions[0] in positions[1..]
    }

    method TogglePause() returns (nowPaused: bool)
      requires Valid()
      modifies this`paused
      ensures Valid()
      ensures paused == !old(paused) && nowPaused == paused
    {
      paused := !paused;
      nowPaused := paused;
    }
  }

  class Food {
    const difficulty: Difficulty
    var position: Cell
    var timer: int
    const maxTimer: int

    /** The food is on the grid and has not yet expired. */
    ghost predicate Valid()
      reads this
    {
      InBounds(position) && 0 <= timer < maxTimer && maxTimer == MaxTimer(difficulty)
    }

    /** A new food lands on the random cell `draw`, which is not checked against the snake. */
    constructor (difficulty: Difficulty, draw: Cell)
      requires InBounds(draw)
      ensures Valid() && this.difficulty == difficulty
      ensures position == draw && timer == 0
    {
      this.difficulty := difficulty;
      position := draw;
      timer := 0;
      maxTimer := MaxTimer(difficulty);
    }

    /** `update`: the timer advances unless paused; true once the lifetime is used up. */
    method Update(paused: bool) returns (expired: bool)
      modifies this`timer
      ensures timer == if paused then old(timer) else old(timer) + 1
      ensures expired <==> timer >= maxTimer
    {
      if !paused {
        timer := timer + 1;
      }
      expired := timer >= maxTimer;
    }
  }

  /** An input to the running game: an arrow, P or SPACE, R, M, ESC, or any other key. */
  datatype Key = Arrow(heading: Dir) | PauseKey | RestartKey | MenuKey | Escape | OtherKey

  /** Whether the game goes on or hands control back to the difficulty menu. */
  datatype Outcome = Continue | ToMenu

  /** One game (`main_game`): a snake, a food and the game-over flag. */
  class Session {
    const difficulty: Difficulty
    var snake: Snake
    var food: Food
    var gameOver: bool

    ghost predicate Valid()
      reads this, snake, food
    {
      snake.Valid() && food.Valid() && snake.difficulty == difficulty && food.difficulty == difficulty
    }

    constructor (difficulty: Difficulty, initialDir: Dir, foodDraw: Cell)
      requires InBounds(foodDraw)
      ensures Valid() && this.difficulty == difficulty && !gameOver
      ensures fresh(snake) && fresh(food)
      ensures snake.length == 3 && snake.positions == [Center()] && snake.direction == initialDir
      ensures snake.score == 0 && !snake.paused
      ensures food.position == foodDraw && food.timer == 0
    {
      this.difficulty := difficulty;
      snake := new Snake(difficulty, initialDir);
      food := new Food(difficulty, foodDraw);
      gameOver := false;
    }

    /**
     * One key press. ESC leaves for the menu; after a game over, R restarts
     * (a reset snake and a new, unchecked food on `restartFood`) and M
     * leaves for the menu; P or SPACE toggles the pause; an arrow turns the
     * snake only while the game runs and is not paused. While a running game
     * is paused (the pause loop, entered only when the game is not over)
     * only P, SPACE and ESC act; after a game over P only flips the flag,
     * and R and M still act.
     */
    method HandleKey(k: Key, restartDir: Dir, restartFood: Cell) returns (outcome: Outcome)
      requires Valid() && InBounds(restartFood)
      modifies this, snake
      ensures Valid() && snake == old(snake)
      ensures outcome == if k == Escape || (k == MenuKey && old(gameOver)) then ToMenu else Continue
      ensures k == RestartKey && old(gameOver) ==>
        && !gameOver && fresh(food) && food.position == restartFood && food.timer == 0
        && snake.length == 3 && snake.positions == [Center()] && snake.direction == restartDir
        && snake.score == 0 && !snake.paused
      ensures !(k == RestartKey && old(gameOver)) ==>
        && gameOver == old(gameOver) && food == old(food)
        && snake.length == old(snake.length) && snake.positions == old(snake.positions)
        && snake.score == old(snake.score)
        && snake.paused == (if k == PauseKey then !old(snake.paused) else old(snake.paused))
        && snake.direction ==
             if k.Arrow? && !old(gameOver) && !old(snake.paused)
             then Steer(old(snake.direction), k.heading)
             else old(snake.direction)
    {
      outcome := Continue;
      if k == Escape {
        outcome := ToMenu;
      } else if gameOver && k == RestartKey {
        snake.Reset(restartDir);
        food := new Food(difficulty, restartFood);
        gameOver := false;
      } else if gameOver && k == MenuKey {
        outcome := ToMenu;
      } else if k == PauseKey {
        var _ := snake.TogglePause();
      } else if !gameOver && !snake.paused {
        if k.Arrow? {
          snake.direction := Steer(snake.direction, k.heading);
        }
      }
    }

    /**
     * The eating step of a frame: when the head is on the food, grow, draw
     * food cells until one is off the body, and restart the food's timer.
     */
    method EatIfOnFood(draws: seq<Cell>) returns (used: nat)
      requires Valid()
      requires AllInBounds(draws)
      requires snake.positions[0] == food.position ==> HasFree(snake.positions, draws)
      modifies snake`length, snake`score, food`position, food`timer
      ensures Valid()
      ensures old(snake.positions[0] == food.position) ==>
        && snake.length == old(snake.length) + 1
        && snake.score == old(snake.score) + FoodValue(difficulty)
        && used == FirstFree(snake.positions, draws) + 1
        && food.position == draws[used - 1] && food.position !in snake.positions
        && food.timer == 0
      ensures old(snake.positions[0] != food.position) ==> used == 0 && unchanged(snake, food)
    {
      used := 0;
      if snake.positions[0] == food.position {
        snake.Grow();
        var pos, n := Reroll(snake.positions, draws);
        food.position := pos;
        food.timer := 0;
        used := n;
      }
    }

    /**
     * The expiry step of a frame: age the food, and once its lifetime is
     * used up, draw food cells until one is off the body and restart the
     * timer. The timer does not advance while the snake is paused.
     */
    method ExpireIfStale(draws: seq<Cell>) returns (used: nat)
      requires Valid()
      requires AllInBounds(draws)
      requires !snake.paused && food.timer + 1 >= food.maxTimer ==> HasFree(snake.positions, draws)
      modifies food`position, food`timer
      ensures Valid()
      ensures !snake.paused && old(food.timer) + 1 >= food.maxTimer ==>
        && used == FirstFree(snake.positions, draws) + 1
        && food.position == draws[used - 1] && food.position !in snake.positions
        && food.timer == 0
      ensures snake.paused || old(food.timer) + 1 < food.maxTimer ==>
        && used == 0 && food.position == old(food.position)
        && food.timer == old(food.timer) + (if snake.paused then 0 else 1)
    {
      used := 0;
      var expired := food.Update(snake.paused);
      if expired {
        var pos, n := Reroll(snake.positions, draws);
        food.position := pos;
        food.timer := 0;
        used := n;
      }
    }

    /**
     * The food part of a frame, after the move: the eating step and then
     * the expiry step. They are two independent tests, so food eaten in
     * this frame has its fresh timer aged once and cannot expire.
     */
    method FeedAndAge(draws: seq<Cell>) returns (used: nat)
      requires Valid()
      requires AllInBounds(draws)
      requires !snake.paused
      requires snake.positions[0] == food.position || food.timer + 1 >= food.maxTimer ==>
        HasFree(snake.positions, draws)
      modifies snake`length, snake`score, food`position, food`timer
      ensures Valid()
      ensures
        var ate := old(snake.positions[0] == food.position);
        && snake.length == old(snake.length) + (if ate then 1 else 0)
        && snake.score == old(snake.score) + (if ate then FoodValue(difficulty) else 0)
        && (ate ==> used == FirstFree(snake.positions, draws) + 1 && food.position == draws[used - 1] && food.timer == 1)
        && (!ate && old(food.timer) + 1 >= food.maxTimer ==>
              used == FirstFree(snake.positions, draws) + 1 && food.position == draws[used - 1] && food.timer == 0)
        && (!ate && old(food.timer) + 1 < food.maxTimer ==>
              used == 0 && food.position == old(food.position) && food.timer == old(food.timer) + 1)
        && (used > 0 ==> food.position !in snake.positions)
    {
      used := EatIfOnFood(draws);
      var more := ExpireIfStale(draws[used..]);
      assert more > 0 ==> used == 0 && draws[used..] == draws;
      used := used + more;
    }

    /**
     * A frame of a running game: move, then the food part of the frame,
     * and finally end the game on a collision.
     */
    method Play(draws: seq<Cell>) returns (used: nat)
      requires Valid()
      requires AllInBounds(draws)
      requires !gameOver && !snake.paused
      requires
        var moved := Advance(snake.positions, snake.direction, snake.length);
        moved[0] == food.position || food.timer + 1 >= food.maxTimer ==> HasFree(moved, draws)
      modifies this`gameOver, snake`positions, snake`length, snake`score, food`position, food`timer
      ensures Valid()
      ensures
        var moved := Advance(old(snake.positions), snake.direction, old(snake.length));
        var ate := moved[0] == old(food.position);
        && snake.positions == moved
        && snake.length == old(snake.length) + (if ate then 1 else 0)
        && snake.score == old(snake.score) + (if ate then FoodValue(difficulty) else 0)
        && (ate ==> used == FirstFree(moved, draws) + 1 && food.position == draws[used - 1] && food.timer == 1)
        && (!ate && old(food.timer) + 1 >= food.maxTimer ==>
              used == FirstFree(moved, draws) + 1 && food.position == draws[used - 1] && food.timer == 0)
        && (!ate && old(food.timer) + 1 < food.maxTimer ==>
              used == 0 && food.position == old(food.position) && food.timer == old(food.timer) + 1)
        && (used > 0 ==> food.position !in snake.positions)
        && (gameOver <==> exists i :: 1 <= i < |moved| && moved[i] == moved[0])
    {
      snake.Move();
      used := FeedAndAge(draws);
      gameOver := snake.CheckCollision();
    }

    /**
     * One pass of the game loop: a frame is played (`Play`) unless the game
     * is over or paused. `draws` is the stream of random cells; `used`
     * counts the cells taken from it.
     */
    method Tick(draws: seq<Cell>) returns (used: nat)
      requires Valid()
      requires AllInBounds(draws)
      requires
        var moved := Advance(snake.positions, snake.direction, snake.length);
        !gameOver && !snake.paused && (moved[0] == food.position || food.timer + 1 >= food.maxTimer) ==>
          HasFree(moved, draws)
      modifies this`gameOver, snake`positions, snake`length, snake`score, food`position, food`timer
      ensures Valid()
      ensures old(gameOver) || old(snake.paused) ==> used == 0 && unchanged(this, snake, food)
      ensures !old(gameOver) && !old(snake.paused) ==>
        var moved := Advance(old(snake.positions), snake.direction, old(snake.length));
        var ate := moved[0] == old(food.position);
        && snake.positions == moved
        && snake.length == old(snake.length) + (if ate then 1 else 0)
        && snake.score == old(snake.score) + (if ate then FoodValue(difficulty) else 0)
        && (ate ==> used == FirstFree(moved, draws) + 1 && food.position == draws[used - 1] && food.timer == 1)
        && (!ate && old(food.timer) + 1 >= food.maxTimer ==>
              used == FirstFree(moved, draws) + 1 && food.position == draws[used - 1] && food.timer == 0)
        && (!ate && old(food.timer) + 1 < food.maxTimer ==>
              used == 0 && food.position == old(food.position) && food.timer == old(food.timer) + 1)
        && (used > 0 ==> food.position !in snake.positions)
        && (gameOver <==> exists i :: 1 <= i < |moved| && moved[i] == moved[0])
    {
      used := 0;
      if !gameOver && !snake.paused {
        used := Play(draws);
      }
    }
  }
}
