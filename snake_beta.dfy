/**
 * The early version of the game (snake_beta.py): one level, ten points per
 * food, food that never expires, no pause, and R to restart after a game
 * over.
 */
module SnakeBeta {
  import opened Grid
  import opened Rules

  /** Points for one food. */
  const FoodPoints: int := 10

  class Snake {
    var length: int
    var positions: seq<Cell>
    var direction: Dir
    var score: int

    /** The body is never longer than the target length and stays on the grid. */
    ghost predicate Valid()
      reads this
    {
      3 <= length && 1 <= |positions| <= length && AllInBounds(positions) && 0 <= score
    }

    constructor (initialDir: Dir)
      ensures Valid()
      ensures length == 3 && positions == [Center()] && direction == initialDir && score == 0
    {
      new;
      Reset(initialDir);
    }

    /** `reset`: the random starting heading is the caller's `initialDir`. */
    method Reset(initialDir: Dir)
      modifies this
      ensures Valid()
      ensures length == 3 && positions == [Center()] && direction == initialDir && score == 0
    {
      length := 3;
      positions := [Center()];
      direction := initialDir;
      score := 0;
    }

    /** `move`: the body advances one cell. */
    method Move()
      requires Valid()
      modifies this`positions
      ensures Valid()
      ensures positions == Advance(old(positions), direction, length)
    {
      var newHead := Step(positions[0], direction);
      positions := [newHead] + positions;
      if |positions| > length {
        positions := positions[..|positions| - 1];
      }
    }

    /** `grow`: the body catches up on the next moves; ten more points. */
    method Grow()
      requires Valid()
      modifies this`length, this`score
      ensures Valid()
      ensures length == old(length) + 1 && score == old(score) + FoodPoints
    {
      length := length + 1;
      score := score + FoodPoints;
    }

    /** `check_collision`: the head meets another cell of the body. */
    function CheckCollision(): (hit: bool)
      reads this
      requires |positions| >= 1
      ensures hit <==> exists i :: 1 <= i < |positions| && positions[i] == positions[0]
    {
      positions[0] in positions[1..]
    }
  }

  class Food {
    var position: Cell

    /** A food lands on the random cell `draw`, which is not checked against the snake. */
    constructor (draw: Cell)
      ensures position == draw
    {
      position := draw;
    }
  }

  /** An input to the game: an arrow, R, or any other key. */
  datatype Key = Arrow(heading: Dir) | RestartKey | OtherKey

  /** One game (`main`): a snake, a food and the game-over flag. */
  class Session {
    var snake: Snake
    var food: Food
    var gameOver: bool

    ghost predicate Valid()
      reads this, snake, food
    {
      snake.Valid() && InBounds(food.position)
    }

    constructor (initialDir: Dir, foodDraw: Cell)
      requires InBounds(foodDraw)
      ensures Valid() && !gameOver && fresh(snake) && fresh(food)
      ensures snake.length == 3 && snake.positions == [Center()] && snake.direction == initialDir
      ensures snake.score == 0 && food.position == foodDraw
    {
      snake := new Snake(initialDir);
      food := new Food(foodDraw);
      gameOver := false;
    }

    /**
     * One key press. After a game over, R resets the snake and keeps the
     * food where it is; while the game runs an arrow turns the snake.
     */
    method HandleKey(k: Key, restartDir: Dir)
      requires Valid()
      modifies this`gameOver, snake
      ensures Valid()
      ensures k == RestartKey && old(gameOver) ==>
        && !gameOver
        && snake.length == 3 && snake.positions == [Center()] && snake.direction == restartDir
        && snake.score == 0
      ensures !(k == RestartKey && old(gameOver)) ==>
        && gameOver == old(gameOver)
        && snake.length == old(snake.length) && snake.positions == old(snake.positions)
        && snake.score == old(snake.score)
        && snake.direction ==
             if k.Arrow? && !old(gameOver) then Steer(old(snake.direction), k.heading)
             else old(snake.direction)
    {
      if gameOver && k == RestartKey {
        snake.Reset(restartDir);
        gameOver := false;
      } else if !gameOver {
        if k.Arrow? {
          snake.direction := Steer(snake.direction, k.heading);
        }
      }
    }

    /**
     * One frame of play unless the game is over: move; if the head reached
     * the food, grow and re-roll the food off the body; end the game on a
     * collision. `draws` is the stream of random cells; `used` counts the
     * cells taken from it.
     */
    method Tick(draws: seq<Cell>) returns (used: nat)
      requires Valid()
      requires AllInBounds(draws)
      requires !gameOver && Advance(snake.positions, snake.direction, snake.length)[0] == food.position ==>
        HasFree(Advance(snake.positions, snake.direction, snake.length), draws)
      modifies this`gameOver, snake`positions, snake`length, snake`score, food`position
      ensures Valid()
      ensures old(gameOver) ==> used == 0 && unchanged(this, snake, food)
      ensures !old(gameOver) ==>
        var moved := Advance(old(snake.positions), snake.direction, old(snake.length));
        var ate := moved[0] == old(food.position);
        && snake.positions == moved
        && snake.length == old(snake.length) + (if ate then 1 else 0)
        && snake.score == old(snake.score) + (if ate then FoodPoints else 0)
        && (ate ==> used == FirstFree(moved, draws) + 1 && food.position == draws[used - 1])
        && (ate ==> food.position !in snake.positions)
        && (!ate ==> used == 0 && food.position == old(food.position))
        && (gameOver <==> exists i :: 1 <= i < |moved| && moved[i] == moved[0])
    {
      used := 0;
      if !gameOver {
        snake.Move();
        if snake.positions[0] == food.position {
          snake.Grow();
          var pos, n := Reroll(snake.positions, draws);
          food.position := pos;
          used := n;
        }
        if snake.CheckCollision() {
          gameOver := true;
        }
      }
    }
  }
}
