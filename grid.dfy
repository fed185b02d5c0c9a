/**
 * The playing field shared by both versions of the game: a window of
 * 600 x 400 pixels cut into 20-pixel cells, i.e. a 30 x 20 grid whose
 * edges are glued together (the snake leaves on one side and comes back
 * on the other).
 */
module Grid {

  const ScreenWidth: int := 600
  const ScreenHeight: int := 400
  const CellSize: int := 20
  const Width: int := ScreenWidth / CellSize    // 30 columns
  const Height: int := ScreenHeight / CellSize  // 20 rows

  /** A grid cell, written (x, y) in the game: x is the column, y the row. */
  datatype Cell = Cell(x: int, y: int)

  predicate InBounds(c: Cell) {
    0 <= c.x < Width && 0 <= c.y < Height
  }

  predicate AllInBounds(cells: seq<Cell>) {
    forall i :: 0 <= i < |cells| ==> InBounds(cells[i])
  }

  /** The cell a fresh snake starts on: (GRID_WIDTH // 2, GRID_HEIGHT // 2). */
  function Center(): (c: Cell)
    ensures InBounds(c)
    ensures c == Cell(15, 10)
  {
    Cell(Width / 2, Height / 2)
  }

  /**
   * The four headings of the snake. The game stores them as unit vectors:
   * Up = (0, -1), Down = (0, 1), Left = (-1, 0), Right = (1, 0); rows grow
   * downwards on the screen.
   */
  datatype Dir = Up | Down | Left | Right

  function DX(d: Dir): int {
    match d
    case Left => -1
    case Right => 1
    case _ => 0
  }

  function DY(d: Dir): int {
    match d
    case Up => -1
    case Down => 1
    case _ => 0
  }

  /** The heading that points the other way. */
  function Opposite(d: Dir): (r: Dir)
    ensures DX(r) == -DX(d) && DY(r) == -DY(d)
    ensures r != d
  {
    match d
    case Up => Down
    case Down => Up
    case Left => Right
    case Right => Left
  }

  /** Moves one coordinate by delta and wraps it into [0, size). */
  function Wrap(v: int, delta: int, size: int): (r: int)
    requires size > 0
    ensures 0 <= r < size
    ensures 0 <= v < size && -1 <= delta <= 1 ==>
      r == if v + delta == size then 0 else if v + delta == -1 then size - 1 else v + delta
  {
    (v + delta) % size
  }

  /**
   * One step of the head: ((x + dx) % GRID_WIDTH, (y + dy) % GRID_HEIGHT).
   * The game's `%` is Python's, whose result takes the sign of the divisor;
   * for the positive grid sizes it agrees with Dafny's `%`.
   */
  function Step(c: Cell, d: Dir): (r: Cell)
    ensures InBounds(r)
    ensures InBounds(c) ==>
      r.x == (if c.x + DX(d) == Width then 0 else if c.x + DX(d) == -1 then Width - 1 else c.x + DX(d)) &&
      r.y == (if c.y + DY(d) == Height then 0 else if c.y + DY(d) == -1 then Height - 1 else c.y + DY(d))
  {
    Cell(Wrap(c.x, DX(d), Width), Wrap(c.y, DY(d), Height))
  }

  /** Stepping back the opposite way undoes a step: the torus has no dead ends. */
  lemma StepRoundTrip(c: Cell, d: Dir)
    requires InBounds(c)
    ensures Step(Step(c, d), Opposite(d)) == c
  {
  }

  /** A step changes the cell: the grid is wider and taller than one cell. */
  lemma StepMoves(c: Cell, d: Dir)
    requires InBounds(c)
    ensures Step(c, d) != c
  {
  }
}
