/**
 * Game rules that both versions of the game share word for word: how the
 * body advances, how an arrow key turns the snake, and how a new food cell
 * is drawn until it misses the snake.
 */
module Rules {
  import opened Grid

  /**
   * The body after one move: the stepped head is put in front
   * (`positions.insert(0, new_head)`) and, when the body is then longer
   * than the target length, the last cell is dropped (`positions.pop()`).
   */
  function Advance(body: seq<Cell>, d: Dir, length: int): (r: seq<Cell>)
    requires |body| >= 1
    ensures |r| == if |body| + 1 > length then |body| else |body| + 1
    ensures r[0] == Step(body[0], d)
    ensures r[1..] == body[..|r| - 1]
    ensures |body| <= length ==> |r| <= length
    ensures AllInBounds(body) ==> AllInBounds(r)
  {
    var grown := [Step(body[0], d)] + body;
    if |grown| > length then grown[..|grown| - 1] else grown
  }

  /**
   * The head wraps at every edge on every level: a snake leaving the right
   * edge reappears in column 0 of the same row, so the off-grid head that
   * the hard level's wall test looks for never occurs.
   */
  lemma RightEdgeWraps(body: seq<Cell>, length: int)
    requires |body| >= 1 && InBounds(body[0]) && body[0].x == Width - 1
    ensures Advance(body, Right, length)[0] == Cell(0, body[0].y)
    ensures InBounds(Advance(body, Right, length)[0])
  {
  }

  /**
   * The advanced body bites itself exactly when the new head lands on a
   * cell of the old body that the move keeps: the tail cell that a
   * full-length snake gives up is free to enter.
   */
  lemma CollidesAfterAdvance(body: seq<Cell>, d: Dir, length: int)
    requires |body| >= 1
    ensures var r := Advance(body, d, length);
      (exists i :: 1 <= i < |r| && r[i] == r[0]) <==> Step(body[0], d) in body[..|r| - 1]
  {
  }

  /**
   * The arrow-key rule: an arrow turns the snake to its heading unless that
   * heading is the reverse of the current one, in which case the key does
   * nothing. Written as the game's four guarded branches, one per key.
   */
  function Steer(current: Dir, arrow: Dir): (r: Dir)
    ensures r != Opposite(current)
    ensures arrow != Opposite(current) ==> r == arrow
    ensures arrow == Opposite(current) ==> r == current
  {
    match arrow
    case Up => if current != Down then Up else current
    case Down => if current != Up then Down else current
    case Left => if current != Right then Left else current
    case Right => if current != Left then Right else current
  }

  /**
   * The arrow-key rule compares with the current heading, not with the
   * heading of the last move, and several keys can arrive between two
   * moves. Two quick turns, Up then Left, reverse a snake that was moving
   * Right, and the next move puts the head on the cell right behind it:
   * one instance of `TurnsReverseOntoNeck` below.
   */
  lemma TwoTurnsInOneFrameReverse()
    ensures Steer(Steer(Right, Up), Left) == Opposite(Right)
    ensures var body := [Cell(10, 5), Cell(9, 5), Cell(8, 5)];
      var r := Advance(body, Steer(Steer(Right, Up), Left), 3);
      r[0] == Cell(9, 5) && r[0] in r[1..]
  {
    TurnsReverseOntoNeck([Cell(10, 5), Cell(9, 5), Cell(8, 5)], Right, 3);
  }

  /** A heading at right angles to `d`. */
  function Perpendicular(d: Dir): (r: Dir)
    ensures r != d && r != Opposite(d)
  {
    match d
    case Up => Left
    case Down => Right
    case Left => Up
    case Right => Down
  }

  /**
   * The same in general: whatever the heading `d`, a perpendicular turn and
   * then the turn towards `Opposite(d)` both pass the arrow-key rule, so
   * two keys between two moves reverse the snake. A body that got its head
   * by a step in `d` (and is at least 3 long) then moves its head back onto
   * its second cell, which the move keeps.
   */
  lemma TurnsReverseOntoNeck(body: seq<Cell>, d: Dir, length: int)
    requires |body| >= 2 && AllInBounds(body) && body[0] == Step(body[1], d)
    requires length >= 3
    ensures exists a1: Dir, a2: Dir :: Steer(Steer(d, a1), a2) == Opposite(d)
    ensures var r := Advance(body, Opposite(d), length);
      r[0] == body[1] && r[0] in r[1..]
  {
    var a1 := Perpendicular(d);
    assert Steer(Steer(d, a1), Opposite(d)) == Opposite(d);
    StepRoundTrip(body[1], d);
    var r := Advance(body, Opposite(d), length);
    assert r[1..] == body[..|r| - 1];
    assert r[1..][1] == body[1];
  }

  /** The stream of random draws holds at least one cell outside `avoid`. */
  predicate HasFree(avoid: seq<Cell>, draws: seq<Cell>) {
    exists i :: 0 <= i < |draws| && draws[i] !in avoid
  }

  /** The index of the first draw that lies outside `avoid`. */
  function FirstFree(avoid: seq<Cell>, draws: seq<Cell>): (k: nat)
    requires HasFree(avoid, draws)
    ensures k < |draws| && draws[k] !in avoid
    decreases |draws|
  {
    if draws[0] !in avoid then 0
    else
      var i :| 0 <= i < |draws| && draws[i] !in avoid;
      assert draws[1..][i - 1] == draws[i];
      1 + FirstFree(avoid, draws[1..])
  }

  /** No free draw comes before the first one. */
  lemma {:induction false} FirstFreeIsFirst(avoid: seq<Cell>, draws: seq<Cell>, j: nat)
    requires j < |draws| && draws[j] !in avoid
    ensures HasFree(avoid, draws) && FirstFree(avoid, draws) <= j
    decreases j
  {
    if j > 0 && draws[0] in avoid {
      assert draws[1..][j - 1] == draws[j];
      FirstFreeIsFirst(avoid, draws[1..], j - 1);
    }
  }

  /**
   * The re-roll loop: draw a cell, and keep drawing while it is occupied.
   * The random generator is the caller's stream `draws`; `used` says how
   * many draws were taken from it.
   */
  method Reroll(avoid: seq<Cell>, draws: seq<Cell>) returns (pos: Cell, used: nat)
    requires HasFree(avoid, draws)
    ensures used == FirstFree(avoid, draws) + 1
    ensures pos == draws[used - 1] && pos !in avoid
    ensures AllInBounds(draws) ==> InBounds(pos)
  {
    pos := draws[0];
    used := 1;
    while pos in avoid
      invariant 1 <= used <= FirstFree(avoid, draws) + 1
      invariant pos == draws[used - 1]
      decreases |draws| - used
    {
      pos := draws[used];
      used := used + 1;
    }
    FirstFreeIsFirst(avoid, draws, used - 1);
  }
}
