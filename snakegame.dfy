/** The snake of `games/SnakeGame.tsx` on a 20 x 20 torus: a tick moves
    the head one cell in the current direction (wrapping at the borders),
    ends the game when the head hits the snake, and grows the snake and
    the score when the head reaches the food. */
module SnakeGame {

  const GRID_SIZE: int := 20

  datatype Point = Point(x: int, y: int)

  const INITIAL_SNAKE: seq<Point> := [Point(10, 10), Point(10, 11), Point(10, 12)]
  const INITIAL_DIRECTION: Point := Point(0, -1)
  const INITIAL_FOOD: Point := Point(5, 5)

  datatype Key = ArrowUp | ArrowDown | ArrowLeft | ArrowRight | Space | OtherKey

  /** JavaScript's `%`: the remainder takes the sign of the dividend. */
  function JsRem(a: int, n: int): (r: int)
    requires n > 0
    ensures -n < r < n
    ensures a >= 0 ==> r == a % n
    ensures a < 0 ==> r <= 0
  {
    if a >= 0 then a % n else -((-a) % n)
  }

  predicate InGrid(p: Point)
  {
    0 <= p.x < GRID_SIZE && 0 <= p.y < GRID_SIZE
  }

  predicate IsUnit(d: Point)
  {
    d == Point(0, -1) || d == Point(0, 1) || d == Point(-1, 0) || d == Point(1, 0)
  }

  function Opposite(d: Point): Point
  {
    Point(-d.x, -d.y)
  }

  /** The head position after one tick. */
  function NextHead(head: Point, direction: Point): (p: Point)
    ensures InGrid(head) && IsUnit(direction) ==> InGrid(p)
  {
    Point(JsRem(head.x + direction.x + GRID_SIZE, GRID_SIZE),
          JsRem(head.y + direction.y + GRID_SIZE, GRID_SIZE))
  }

  /** Running off the right edge re-enters on the left, and conversely;
      elsewhere a tick is a plain unit step. */
  lemma WrapAround(y: int)
    requires 0 <= y < GRID_SIZE
    ensures NextHead(Point(GRID_SIZE - 1, y), Point(1, 0)) == Point(0, y)
    ensures NextHead(Point(0, y), Point(-1, 0)) == Point(GRID_SIZE - 1, y)
    ensures NextHead(Point(y, GRID_SIZE - 1), Point(0, 1)) == Point(y, 0)
    ensures NextHead(Point(y, 0), Point(0, -1)) == Point(y, GRID_SIZE - 1)
  {
  }

  lemma InteriorStep(head: Point, d: Point)
    requires InGrid(head) && IsUnit(d) && InGrid(Point(head.x + d.x, head.y + d.y))
    ensures NextHead(head, d) == Point(head.x + d.x, head.y + d.y)
  {
  }

  /** Consecutive segments are one tick apart. */
  predicate Step(from: Point, to: Point)
  {
    || to == NextHead(from, Point(0, -1)) || to == NextHead(from, Point(0, 1))
    || to == NextHead(from, Point(-1, 0)) || to == NextHead(from, Point(1, 0))
  }

  predicate Linked(s: seq<Point>)
  {
    forall i :: 0 <= i < |s| - 1 ==> Step(s[i + 1], s[i])
  }

  predicate Distinct(s: seq<Point>)
  {
    forall i, j :: 0 <= i < j < |s| ==> s[i] != s[j]
  }

  predicate AllInGrid(s: seq<Point>)
  {
    forall i :: 0 <= i < |s| ==> InGrid(s[i])
  }

  // ---------------------------------------------------------------------
  // generateFood

  predicate HasFree(snake: seq<Point>, candidates: seq<Point>)
  {
    exists i :: 0 <= i < |candidates| && candidates[i] !in snake
  }

  /** The first random position that is not on the snake. */
  function FirstFree(snake: seq<Point>, candidates: seq<Point>): (p: Point)
    requires HasFree(snake, candidates)
    ensures p in candidates && p !in snake
  {
    if candidates[0] !in snake then candidates[0]
    else
      assert candidates == [candidates[0]] + candidates[1..];
      assert HasFree(snake, candidates[1..]) by {
        var i :| 0 <= i < |candidates| && candidates[i] !in snake;
        assert candidates[1..][i - 1] == candidates[i];
      }
      FirstFree(snake, candidates[1..])
  }

  /** `generateFood`: `candidates` stands for the successive random
      positions; the loop stops at the first one the snake does not cover. */
  method GenerateFood(snake: seq<Point>, candidates: seq<Point>) returns (newFood: Point)
    requires HasFree(snake, candidates)
    ensures newFood == FirstFree(snake, candidates)
    ensures newFood !in snake
    ensures exists i :: 0 <= i < |candidates| && newFood == candidates[i] &&
                        forall j :: 0 <= j < i ==> candidates[j] in snake
  {
    var i := 0;
    while true
      invariant 0 <= i < |candidates| && HasFree(snake, candidates[i..])
      invariant FirstFree(snake, candidates[i..]) == FirstFree(snake, candidates)
      invariant forall j :: 0 <= j < i ==> candidates[j] in snake
      decreases |candidates| - i
    {
      newFood := candidates[i];
      var isOnSnake := newFood in snake;
      if !isOnSnake {
        return;
      }
      assert candidates[i..] == [candidates[i]] + candidates[i + 1..];
      assert HasFree(snake, candidates[i + 1..]) by {
        var k :| 0 <= k < |candidates[i..]| && candidates[i..][k] !in snake;
        assert k > 0 && candidates[i + 1..][k - 1] == candidates[i..][k];
      }
      i := i + 1;
    }
  }

  // ---------------------------------------------------------------------
  // Steering

  /** The key handler (and the on-screen buttons, which share its guards):
      a key may not turn straight back against the current direction. */
  function Steer(direction: Point, k: Key): (d: Point)
  {
    match k
    case ArrowUp => if direction.y != 1 then Point(0, -1) else direction
    case ArrowDown => if direction.y != -1 then Point(0, 1) else direction
    case ArrowLeft => if direction.x != 1 then Point(-1, 0) else direction
    case ArrowRight => if direction.x != -1 then Point(1, 0) else direction
    case _ => direction
  }

  /** One key press keeps the direction a unit vector and never reverses it. */
  lemma SteerNeverReverses(direction: Point, k: Key)
    requires IsUnit(direction)
    ensures IsUnit(Steer(direction, k))
    ensures Steer(direction, k) != Opposite(direction)
  {
    var d := Steer(direction, k);
    if d == direction {
      assert direction.x != 0 || direction.y != 0;
    } else {
      match k
      case ArrowUp => assert d == Point(0, -1) && direction.y != 1;
      case ArrowDown => assert d == Point(0, 1) && direction.y != -1;
      case ArrowLeft => assert d == Point(-1, 0) && direction.x != 1;
      case ArrowRight => assert d == Point(1, 0) && direction.x != -1;
    }
  }

  /** The guard only consults the direction already set, so two presses
      between ticks can turn the snake straight back: from the start,
      Left then Down points the head into the second segment. */
  lemma TwoKeysReverse()
    ensures Steer(Steer(INITIAL_DIRECTION, ArrowLeft), ArrowDown) == Opposite(INITIAL_DIRECTION)
    ensures NextHead(INITIAL_SNAKE[0], Opposite(INITIAL_DIRECTION)) == INITIAL_SNAKE[1]
  {
  }

  // ---------------------------------------------------------------------
  // The component state

  class Game {
    var snake: seq<Point>
    var food: Point
    var direction: Point
    var isGameOver: bool
    var score: nat
    var isPaused: bool

    ghost predicate Valid()
      reads this
    {
      && |snake| >= |INITIAL_SNAKE|
      && AllInGrid(snake) && Distinct(snake) && Linked(snake)
      && IsUnit(direction) && InGrid(food)
      && score == 10 * (|snake| - |INITIAL_SNAKE|)
    }

    constructor ()
      ensures Valid()
      ensures snake == INITIAL_SNAKE && food == INITIAL_FOOD && direction == INITIAL_DIRECTION
      ensures !isGameOver && score == 0 && !isPaused
    {
      snake := INITIAL_SNAKE;
      food := INITIAL_FOOD;
      direction := INITIAL_DIRECTION;
      isGameOver := false;
      score := 0;
      isPaused := false;
      InitialSnakeShape();
    }

    /** `moveSnake`, run by the 150 ms interval. `foodCandidates` feeds
        `generateFood` when the head reaches the food. */
    method MoveSnake(foodCandidates: seq<Point>)
      requires Valid()
      requires AllInGrid(foodCandidates)
      requires (!isGameOver && !isPaused && NextHead(snake[0], direction) !in snake &&
                NextHead(snake[0], direction) == food) ==> HasFree(snake, foodCandidates)
      modifies this
      ensures Valid()
      ensures direction == old(direction) && isPaused == old(isPaused)
      ensures old(isGameOver) || old(isPaused) ==>
                snake == old(snake) && food == old(food) && score == old(score) && isGameOver == old(isGameOver)
      ensures !old(isGameOver) && !old(isPaused) ==>
                var newHead := NextHead(old(snake)[0], old(direction));
                if newHead in old(snake) then
                  isGameOver && snake == old(snake) && food == old(food) && score == old(score)
                else if newHead == old(food) then
                  !isGameOver && snake == [newHead] + old(snake) && score == old(score) + 10 &&
                  food == FirstFree(old(snake), foodCandidates)
                else
                  !isGameOver && snake == [newHead] + old(snake)[..|old(snake)| - 1] &&
                  food == old(food) && score == old(score)
    {
      if isGameOver || isPaused {
        return;
      }
      var prevSnake := snake;
      var newHead := NextHead(prevSnake[0], direction);
      if newHead in prevSnake {
        isGameOver := true;
        return;
      }
      var newSnake := [newHead] + prevSnake;
      if newHead == food {
        score := score + 10;
        food := GenerateFood(prevSnake, foodCandidates);
      } else {
        newSnake := newSnake[..|newSnake| - 1];
      }
      GrowKeepsShape(prevSnake, direction, newSnake);
      snake := newSnake;
    }

    /** The `keydown` listener. */
    method KeyDown(k: Key)
      requires Valid()
      modifies this
      ensures Valid()
      ensures direction == Steer(old(direction), k)
      ensures isPaused == (if k == Space then !old(isPaused) else old(isPaused))
      ensures snake == old(snake) && food == old(food) && score == old(score) && isGameOver == old(isGameOver)
    {
      SteerNeverReverses(direction, k);
      match k
      case ArrowUp =>
        if direction.y != 1 { direction := Point(0, -1); }
      case ArrowDown =>
        if direction.y != -1 { direction := Point(0, 1); }
      case ArrowLeft =>
        if direction.x != 1 { direction := Point(-1, 0); }
      case ArrowRight =>
        if direction.x != -1 { direction := Point(1, 0); }
      case Space =>
        isPaused := !isPaused;
      case OtherKey =>
    }

    /** An on-screen arrow button: the arrow keys' guards, without pausing. */
    method PressButton(k: Key)
      requires Valid() && k != Space
      modifies this
      ensures Valid()
      ensures direction == Steer(old(direction), k)
      ensures snake == old(snake) && food == old(food) && score == old(score)
      ensures isGameOver == old(isGameOver) && isPaused == old(isPaused)
    {
      SteerNeverReverses(direction, k);
      direction := Steer(direction, k);
    }

    /** `resetGame` (the Play Again button). */
    method ResetGame()
      modifies this
      ensures Valid()
      ensures snake == INITIAL_SNAKE && food == INITIAL_FOOD && direction == INITIAL_DIRECTION
      ensures !isGameOver && score == 0 && !isPaused
    {
      snake := INITIAL_SNAKE;
      direction := INITIAL_DIRECTION;
      food := INITIAL_FOOD;
      score := 0;
      isGameOver := false;
      isPaused := false;
      InitialSnakeShape();
    }
  }

  /** The starting snake is a vertical bar with its head on top. */
  lemma InitialSnakeShape()
    ensures AllInGrid(INITIAL_SNAKE) && Distinct(INITIAL_SNAKE) && Linked(INITIAL_SNAKE)
  {
    var s := INITIAL_SNAKE;
    assert s[1] == Point(10, 11) && s[2] == Point(10, 12);
    assert NextHead(s[1], Point(0, -1)) == s[0];
    assert NextHead(s[2], Point(0, -1)) == s[1];
  }

  /** A tick that does not collide keeps the snake inside the grid, free of
      overlaps and linked cell to cell, whether it grows or not. */
  lemma GrowKeepsShape(prev: seq<Point>, direction: Point, s: seq<Point>)
    requires |prev| >= 1 && AllInGrid(prev) && Distinct(prev) && Linked(prev) && IsUnit(direction)
    requires NextHead(prev[0], direction) !in prev
    requires s == [NextHead(prev[0], direction)] + prev ||
             s == ([NextHead(prev[0], direction)] + prev)[..|prev|]
    ensures AllInGrid(s) && Distinct(s) && Linked(s)
  {
    var head := NextHead(prev[0], direction);
    var full := [head] + prev;
    assert Step(prev[0], head);
    assert Distinct(full) by {
      forall i, j | 0 <= i < j < |full| ensures full[i] != full[j] {
        if i > 0 {
          assert full[i] == prev[i - 1] && full[j] == prev[j - 1];
        } else {
          assert full[j] == prev[j - 1];
        }
      }
    }
    assert Linked(full) by {
      forall i | 0 <= i < |full| - 1 ensures Step(full[i + 1], full[i]) {
        if i > 0 {
          assert full[i] == prev[i - 1] && full[i + 1] == prev[i];
        }
      }
    }
  }

  /** The collision test runs against the whole pre-move snake, tail
      included, so entering the cell the tail is about to leave ends the game. */
  lemma TailCellIsFatal()
    ensures var s := [Point(1, 1), Point(2, 1), Point(2, 2), Point(1, 2)];
            Linked(s) && Distinct(s) && NextHead(s[0], Point(0, 1)) == s[|s| - 1]
  {
    var s := [Point(1, 1), Point(2, 1), Point(2, 2), Point(1, 2)];
    assert NextHead(s[1], Point(-1, 0)) == s[0];
    assert NextHead(s[2], Point(0, -1)) == s[1];
    assert NextHead(s[3], Point(1, 0)) == s[2];
  }

  /** New food is drawn against the snake before the move, so it may land
      on the cell the head has just entered. */
  lemma FoodMayLandOnNewHead()
    ensures var prev := [Point(5, 6), Point(5, 7), Point(5, 8)];
            var head := NextHead(prev[0], Point(0, -1));
            && head == Point(5, 5) && head !in prev
            && HasFree(prev, [head]) && FirstFree(prev, [head]) == head
            && head in [head] + prev
  {
    var prev := [Point(5, 6), Point(5, 7), Point(5, 8)];
    var head := NextHead(prev[0], Point(0, -1));
    assert HasFree(prev, [head]) by {
      assert [head][0] !in prev;
    }
  }
}
