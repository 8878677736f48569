/** Snake: the body never meets itself or the wall while the game goes on, and never outgrows its
    buffer. */
module Snake {
  import opened Sets

  const BOARD_WIDTH: nat := 40
  const BOARD_HEIGHT: nat := 20
  const MAX_SNAKE_LENGTH: nat := 800
  const COLUMNS: nat := BOARD_WIDTH - 2
  const INTERIOR: nat := (BOARD_WIDTH - 2) * (BOARD_HEIGHT - 2)

  datatype Position = Position(x: int, y: int)
  datatype Direction = Up | Down | Left | Right

  function Opposite(d: Direction): Direction {
    match d case Up => Down case Down => Up case Left => Right case Right => Left
  }

  function Step(p: Position, d: Direction): Position {
    match d
    case Up => p.(y := p.y - 1)
    case Down => p.(y := p.y + 1)
    case Left => p.(x := p.x - 1)
    case Right => p.(x := p.x + 1)
  }

  predicate Inside(p: Position) { 0 < p.x < BOARD_WIDTH - 1 && 0 < p.y < BOARD_HEIGHT - 1 }

  predicate Adjacent(p: Position, q: Position) {
    (p.x == q.x && (p.y == q.y + 1 || q.y == p.y + 1)) || (p.y == q.y && (p.x == q.x + 1 || q.x == p.x + 1))
  }

  /** One step in some direction. */
  lemma AdjacentIsStep(p: Position, q: Position)
    ensures Adjacent(p, q) <==> exists d :: q == Step(p, d)
  {
    assert q == Step(p, Up) || q == Step(p, Down) || q == Step(p, Left) || q == Step(p, Right) <==> Adjacent(p, q);
  }

  // ---------- the cells inside the walls ----------

  function Cell(i: nat): Position { Position(i % COLUMNS + 1, i / COLUMNS + 1) }

  function Number(p: Position): int { (p.y - 1) * COLUMNS + (p.x - 1) }

  /** Cells and numbers below 684 correspond. */
  lemma CellNumber(p: Position, k: nat)
    ensures Inside(p) ==> 0 <= Number(p) < INTERIOR && Cell(Number(p)) == p
    ensures k < INTERIOR ==> Inside(Cell(k)) && Number(Cell(k)) == k
  {
    if Inside(p) {
      var n := Number(p);
      assert n / COLUMNS == p.y - 1 && n % COLUMNS == p.x - 1;
    }
  }

  ghost function CellsBelow(n: nat): set<Position>
    requires n <= INTERIOR
  {
    if n == 0 then {} else CellsBelow(n - 1) + {Cell(n - 1)}
  }

  lemma {:induction false} CellsBelowSize(n: nat)
    requires n <= INTERIOR
    ensures forall p :: p in CellsBelow(n) <==> Inside(p) && Number(p) < n
    ensures |CellsBelow(n)| == n
  {
    if n > 0 {
      CellsBelowSize(n - 1);
      forall p ensures p in CellsBelow(n) <==> Inside(p) && Number(p) < n { CellNumber(p, n - 1); }
      CellNumber(Cell(n - 1), n - 1);
    } else {
      forall p ensures Inside(p) ==> Number(p) >= 0 { CellNumber(p, 0); }
    }
  }

  /** Pairwise distinct cells inside the walls: there are at most 38 * 18 of them, and one that is
      free exactly while there are fewer. */
  lemma Pigeonhole(s: seq<Position>, n: nat)
    requires n == INTERIOR && Distinct(s)
    requires forall i :: 0 <= i < |s| ==> Inside(s[i])
    ensures |s| <= n
    ensures |s| < n <==> exists k: nat :: k < n && Cell(k) !in s
  {
    var all := CellsBelow(n);
    CellsBelowSize(n);
    var body := set p | p in s;
    DistinctSize(s);
    forall p | p in body ensures p in all {
      assert Inside(p);
      CellNumber(p, 0);
    }
    SubsetSize(body, all);
    if |s| < n {
      assert body != all;
      var p :| p in all && p !in body;
      CellNumber(p, 0);
      assert Cell(Number(p)) !in s;
    } else {
      forall k: nat | k < n ensures Cell(k) in s {
        CellNumber(Cell(k), k);
        assert Cell(k) in all;
      }
    }
  }

  /** The search finds the cells it can draw: a free one exists exactly while the body is shorter than 684. */
  lemma FreeCells(s: seq<Position>, n: nat)
    requires n == INTERIOR && Distinct(s) && forall i :: 0 <= i < |s| ==> Inside(s[i])
    ensures forall k: nat :: k < n ==> Inside(Cell(k))
    ensures (exists k: nat :: k < n && Cell(k) !in s) <==> exists p :: Inside(p) && p !in s
    ensures (exists k: nat :: k < n && Cell(k) !in s) <==> |s| < n
  {
    Pigeonhole(s, n);
    forall k: nat | k < n ensures Inside(Cell(k)) { CellNumber(Cell(k), k); }
    forall p | Inside(p) && p !in s ensures exists k: nat :: k < n && Cell(k) !in s {
      CellNumber(p, 0);
      assert Cell(Number(p)) !in s;
    }
  }

  // ---------- the state between ticks ----------

  /** Pairwise distinct, inside the walls, and each piece beside the next. */
  ghost predicate IsBody(s: seq<Position>) {
    && (forall i :: 0 <= i < |s| ==> Inside(s[i]))
    && Distinct(s)
    && (forall i :: 0 <= i < |s| - 1 ==> Adjacent(s[i], s[i + 1]))
  }

  function LevelAfter(eaten: nat): nat { 1 + if eaten / 5 < 10 then eaten / 5 else 10 }

  function ScoreAfter(eaten: nat): nat {
    if eaten == 0 then 0 else ScoreAfter(eaten - 1) + 10 * LevelAfter(eaten - 1)
  }

  /** What a bite, the eaten-th, adds: ten points a level; and every fifth one raises the level by one and shortens
      the wait between ticks by 10, as long as it is above 50. */
  predicate Scored(eaten: nat, score: int, score': int, level: int, level': int, speed: int, speed': int) {
    && score' == score + 10 * level
    && (eaten % 5 == 0 && speed > 50 ==> level' == level + 1 && speed' == speed - 10)
    && (eaten % 5 != 0 || speed <= 50 ==> level' == level && speed' == speed)
  }

  /** Every fifth bite raises the level, until the speed is 50. */
  lemma EatenOne(eaten: nat)
    ensures var level := LevelAfter(eaten);
            && LevelAfter(eaten + 1) == level + (if (eaten + 1) % 5 == 0 && 150 - 10 * (level - 1) > 50 then 1 else 0)
            && ScoreAfter(eaten + 1) == ScoreAfter(eaten) + 10 * level
  {
    assert (eaten + 1) / 5 == eaten / 5 + if (eaten + 1) % 5 == 0 then 1 else 0;
  }

  /** A step of the whole body: it gains a head, and loses its tail unless it has eaten. */
  lemma StepKeepsBody(s: seq<Position>, head: Position, eaten: bool)
    requires IsBody(s) && |s| > 0 && Inside(head) && head !in s && Adjacent(head, s[0])
    ensures IsBody([head] + if eaten then s else s[..|s| - 1])
  {
    var t := [head] + if eaten then s else s[..|s| - 1];
    forall i, j | 0 <= i < j < |t| ensures t[i] != t[j] {
      if i > 0 { assert t[i] == s[i - 1] && t[j] == s[j - 1]; } else { assert t[j] == s[j - 1]; }
    }
    forall i | 0 <= i < |t| - 1 ensures Adjacent(t[i], t[i + 1]) {
      if i > 0 { assert t[i] == s[i - 1] && t[i + 1] == s[i]; }
    }
  }

  // ---------- a game as a run of ticks ----------

  /** A game that goes on: the body, the direction of the last step, and the food. */
  datatype State = State(body: seq<Position>, dir: Direction, food: Position)

  /** A tick with the next direction `turn` that does not end the game; a new food may be drawn on any free cell. */
  ghost predicate Ticks(s: State, turn: Direction, t: State) {
    && s.body != [] && turn != Opposite(s.dir)
    && var head := Step(s.body[0], turn);
       && Inside(head) && head !in s.body && t.dir == turn
       && if head != s.food then t.body == [head] + s.body[..|s.body| - 1] && t.food == s.food
          else t.body == [head] + s.body && (|t.body| < INTERIOR ==> Inside(t.food) && t.food !in t.body)
  }

  ghost predicate Starts(s: State) {
    && s.body == [Position(5, 10), Position(4, 10), Position(3, 10)] && s.dir == Right
    && Inside(s.food) && s.food !in s.body
  }

  lemma StartsWith(s: State)
    requires s.body == [Position(5, 10), Position(4, 10), Position(3, 10)] && s.dir == Right
    requires Inside(s.food) && s.food !in s.body
    ensures Starts(s)
  {}

  class SnakeGame {
    const body: array<Position>
    var length: nat
    var direction: Direction
    var nextDirection: Direction
    var score: nat
    var gameOver: bool
    var speed: int
    var food: Position
    var level: nat
    var totalEaten: nat

    ghost function Body(): seq<Position>
      requires length <= body.Length
      reads this, body
    {
      body[..length]
    }

    ghost function Now(): State
      requires length <= body.Length
      reads this, body
    {
      State(Body(), direction, food)
    }

    /** The body, and the counters that follow from what it has eaten. */
    ghost predicate ValidBody()
      reads this, body
    {
      && body.Length == MAX_SNAKE_LENGTH
      && length == 3 + totalEaten && length <= INTERIOR
      && IsBody(body[..length])
      && level == LevelAfter(totalEaten) && speed == 150 - 10 * (level - 1) && score == ScoreAfter(totalEaten)
    }

    /** The food waits on a free cell, unless there is none. */
    ghost predicate ValidFood()
      requires ValidBody()
      reads this, body
    {
      length < INTERIOR ==> Inside(food) && food !in Body()
    }

    /** While the game goes on the head has just moved in `direction`, and will not turn back. */
    ghost predicate Valid()
      reads this, body
    {
      && ValidBody() && ValidFood()
      && (!gameOver ==> body[0] == Step(body[1], direction) && nextDirection != Opposite(direction))
    }

    /** `snake_spawn_food`: some free cell. Its loop draws until it finds one, so with no free cell it never
        ends; then the result is false. */
    method SpawnFood() returns (spawned: bool)
      requires ValidBody()
      modifies `food
      ensures ValidBody() && ValidFood() && (spawned <==> length < INTERIOR)
      ensures spawned <==> exists p :: Inside(p) && p !in Body()
    {
      spawned := exists k: nat :: k < INTERIOR && Cell(k) !in body[..length];
      if spawned {
        var k: nat :| k < INTERIOR && Cell(k) !in body[..length];
        food := Cell(k);
      }
      FreeCells(Body(), INTERIOR);
    }

    /** `snake_init`. */
    constructor ()
      ensures Valid() && !gameOver
      ensures Body() == [Position(5, 10), Position(4, 10), Position(3, 10)] && fresh(body)
      ensures direction == nextDirection == Right && totalEaten == 0 && Starts(Now())
      ensures score == 0 && level == 1 && speed == 150 && body.Length == 800
    {
      body := new Position[MAX_SNAKE_LENGTH](i => Position(0, 0));
      length, direction, nextDirection := 3, Right, Right;
      score, gameOver, speed, level, totalEaten := 0, false, 150, 1, 0;
      food := Position(0, 0);
      new;
      var i := 0;
      while i < length
        modifies body
        invariant 0 <= i <= 3
        invariant forall k :: 0 <= k < i ==> body[k] == Position(5 - k, BOARD_HEIGHT / 2)
      {
        body[i] := Position(5 - i, BOARD_HEIGHT / 2);
        i := i + 1;
      }
      assert body[..length] == [Position(5, 10), Position(4, 10), Position(3, 10)];
      assert ScoreAfter(0) == 0;
      var spawned := SpawnFood();
      StartsWith(Now());
    }

    /** A game in which the snake lies along the whole track, except the first cell, where the food is. */
    constructor AlmostFull(eaten: nat)
      requires 3 + eaten == INTERIOR - 1
      ensures Valid() && !gameOver && fresh(body) && totalEaten == eaten
      ensures Now() == State(TrackFrom(1), Left, Track(0)) && food == Step(Body()[0], nextDirection)
    {
      body := new Position[MAX_SNAKE_LENGTH](i => if 0 <= i < INTERIOR - 1 then Track(i + 1) else Position(0, 0));
      length, direction, nextDirection := 3 + eaten, Left, Left;
      totalEaten, level, speed, gameOver := eaten, LevelAfter(eaten), 150 - 10 * (LevelAfter(eaten) - 1), false;
      score, food := ScoreAfter(eaten), Track(0);
      new;
      TrackIsBody(1);
      LastCell();
      hide Track, IsBody, Inside, Step;
      assert body[..length] == TrackFrom(1);
    }

    /** Is p one of the pieces of the body? */
    method Hits(p: Position) returns (hit: bool)
      requires length <= body.Length
      ensures hit <==> p in Body()
    {
      var i := 0;
      while i < length
        invariant 0 <= i <= length && p !in body[..i]
      {
        if p == body[i] { return true; }
        i := i + 1;
      }
      hit := false;
    }

    /** The shift of `snake_update`: every piece moves up one place, and the head comes first. */
    method Shift(head: Position)
      requires 0 < length < body.Length
      modifies body
      ensures body[..length + 1] == [head] + old(body[..length])
    {
      ghost var s := body[..length];
      var i := length;
      while i > 0
        invariant 0 <= i <= length
        invariant forall k :: 0 <= k <= i && k < length ==> body[k] == s[k]
        invariant forall k :: i < k <= length ==> body[k] == s[k - 1]
      {
        body[i] := body[i - 1];
        i := i - 1;
      }
      body[0] := head;
    }

    /** `snake_update`. The result is true when the snake has filled the board, so that the search
        for a free cell never ends. */
    method Update() returns (stuck: bool)
      requires Valid()
      modifies this, body
      ensures Valid()
      ensures old(gameOver) ==> !stuck && Body() == old(Body()) && gameOver && direction == old(direction)
                                && food == old(food) && totalEaten == old(totalEaten)
      ensures var head := Step(old(body[0]), old(nextDirection));
              !old(gameOver) ==>
                && direction == nextDirection == old(nextDirection) && head != old(body[1])
                && (gameOver <==> !(1 <= head.x <= 38 && 1 <= head.y <= 18) || head in old(Body()))
                && (gameOver ==> !stuck && Body() == old(Body()) && food == old(food) && totalEaten == old(totalEaten))
                && (!gameOver && head != old(food) ==>
                      !stuck && Body() == [head] + old(Body())[..old(length) - 1] && food == old(food)
                      && totalEaten == old(totalEaten))
                && (!gameOver && head == old(food) ==>
                      Body() == [head] + old(Body()) && totalEaten == old(totalEaten) + 1
                      && (stuck <==> length == INTERIOR))
      ensures !gameOver ==> Ticks(old(Now()), old(nextDirection), Now())
      ensures totalEaten == old(totalEaten) ==> score == old(score) && level == old(level) && speed == old(speed)
      ensures totalEaten > old(totalEaten) ==>
                Scored(totalEaten, old(score), score, old(level), level, old(speed), speed)
    {
      stuck := false;
      if gameOver { return; }
      direction := nextDirection;
      var newHead := Step(body[0], direction);
      if newHead.x <= 0 || newHead.x >= BOARD_WIDTH - 1 || newHead.y <= 0 || newHead.y >= BOARD_HEIGHT - 1 {
        gameOver := true;
        return;
      }
      var hit := Hits(newHead);
      if hit {
        gameOver := true;
        return;
      }
      stuck := Advance(newHead);
    }

    /** The rest of `snake_update`, when the next cell is free. */
    method Advance(newHead: Position) returns (stuck: bool)
      requires ValidBody() && ValidFood() && !gameOver && direction == nextDirection
      requires newHead == Step(body[0], direction)
      requires Inside(newHead) && newHead !in Body()
      modifies this, body
      ensures Valid() && !gameOver && direction == nextDirection == old(direction)
      ensures newHead != old(food) ==>
                !stuck && Body() == [newHead] + old(Body())[..old(length) - 1] && food == old(food)
                && totalEaten == old(totalEaten)
      ensures newHead == old(food) ==>
                Body() == [newHead] + old(Body()) && totalEaten == old(totalEaten) + 1
                && (stuck <==> length == INTERIOR)
      ensures totalEaten == old(totalEaten) ==> score == old(score) && level == old(level) && speed == old(speed)
      ensures totalEaten > old(totalEaten) ==>
                Scored(totalEaten, old(score), score, old(level), level, old(speed), speed)
    {
      stuck := false;
      ghost var s := body[..length];
      Pigeonhole([newHead] + s, INTERIOR);
      Shift(newHead);
      StepKeepsBody(s, newHead, newHead == food);
      if newHead == food {
        assert body[..length + 1] == [newHead] + s;
        stuck := Eat();
      } else {
        assert body[..length] == [newHead] + s[..length - 1];
      }
    }

    /** The head is on the food, and the tail has not moved. */
    method Eat() returns (stuck: bool)
      requires body.Length == MAX_SNAKE_LENGTH && length == 3 + totalEaten && length < INTERIOR && !gameOver
      requires IsBody(body[..length + 1]) && body[0] == Step(body[1], direction) && nextDirection == direction
      requires level == LevelAfter(totalEaten) && speed == 150 - 10 * (level - 1) && score == ScoreAfter(totalEaten)
      modifies this
      ensures Valid() && !gameOver && direction == nextDirection == old(direction)
      ensures Body() == body[..old(length) + 1] && totalEaten == old(totalEaten) + 1
      ensures stuck <==> length == INTERIOR
      ensures totalEaten == old(totalEaten) ==> score == old(score) && level == old(level) && speed == old(speed)
      ensures totalEaten > old(totalEaten) ==>
                Scored(totalEaten, old(score), score, old(level), level, old(speed), speed)
    {
      Grow();
      var spawned := SpawnFood();
      stuck := !spawned;
    }

    /** The counters of a snake that has eaten. */
    method Grow()
      requires body.Length == MAX_SNAKE_LENGTH && length == 3 + totalEaten && length < INTERIOR
      requires IsBody(body[..length + 1])
      requires level == LevelAfter(totalEaten) && speed == 150 - 10 * (level - 1) && score == ScoreAfter(totalEaten)
      modifies `score, `totalEaten, `length, `level, `speed
      ensures ValidBody() && length == old(length) + 1 && totalEaten == old(totalEaten) + 1
      ensures totalEaten == old(totalEaten) ==> score == old(score) && level == old(level) && speed == old(speed)
      ensures totalEaten > old(totalEaten) ==>
                Scored(totalEaten, old(score), score, old(level), level, old(speed), speed)
    {
      EatenOne(totalEaten);
      hide IsBody, LevelAfter, ScoreAfter;
      score := score + 10 * level;
      totalEaten := totalEaten + 1;
      if length < MAX_SNAKE_LENGTH {
        length := length + 1;
      }
      if totalEaten % 5 == 0 && speed > 50 {
        level := level + 1;
        speed := speed - 10;
      }
    }

    /** `snake_handle_input`, by character code: w, s, a and d, the same in capitals, or the codes
        72, 80, 75 and 77; q ends the game. */
    method HandleInput(c: int)
      requires Valid() && !gameOver
      modifies `nextDirection, `gameOver
      ensures Valid()
      ensures gameOver <==> c == 'q' as int || c == 'Q' as int
      ensures c in {'w' as int, 'W' as int, 72} ==>
                nextDirection == if direction == Down then old(nextDirection) else Up
      ensures c in {'s' as int, 'S' as int, 80} ==>
                nextDirection == if direction == Up then old(nextDirection) else Down
      ensures c in {'a' as int, 'A' as int, 75} ==>
                nextDirection == if direction == Right then old(nextDirection) else Left
      ensures c in {'d' as int, 'D' as int, 77} ==>
                nextDirection == if direction == Left then old(nextDirection) else Right
      ensures nextDirection != old(nextDirection) ==>
                c in {'w' as int, 'W' as int, 's' as int, 'S' as int, 'a' as int, 'A' as int, 'd' as int, 'D' as int}
                || c in {72, 80, 75, 77}
    {
      if c == 'w' as int || c == 'W' as int || c == 72 {
        if direction != Down { nextDirection := Up; }
      } else if c == 's' as int || c == 'S' as int || c == 80 {
        if direction != Up { nextDirection := Down; }
      } else if c == 'a' as int || c == 'A' as int || c == 75 {
        if direction != Right { nextDirection := Left; }
      } else if c == 'd' as int || c == 'D' as int || c == 77 {
        if direction != Left { nextDirection := Right; }
      } else if c == 'q' as int || c == 'Q' as int {
        gameOver := true;
      }
    }
  }

  // ---------- a board that fills up ----------

  /** Cell k of the track that runs through the rows in turn, to the right and back. */
  function Track(k: nat): Position {
    Position(if k / COLUMNS % 2 == 0 then k % COLUMNS + 1 else COLUMNS - k % COLUMNS, k / COLUMNS + 1)
  }

  function TrackFrom(from: nat): (s: seq<Position>)
    requires from <= INTERIOR
    ensures |s| == INTERIOR - from && forall i :: 0 <= i < |s| ==> s[i] == Track(from + i)
  {
    seq(INTERIOR - from, i requires 0 <= i => Track(from + i))
  }

  lemma TrackStep(k: nat)
    ensures k < INTERIOR ==> Inside(Track(k))
    ensures Adjacent(Track(k), Track(k + 1))
  {
    var row, column := k / COLUMNS, k % COLUMNS;
    if column < COLUMNS - 1 {
      assert (k + 1) / COLUMNS == row && (k + 1) % COLUMNS == column + 1;
    } else {
      assert (k + 1) / COLUMNS == row + 1 && (k + 1) % COLUMNS == 0;
    }
  }

  lemma TrackOnce(j: nat, k: nat)
    requires j < k
    ensures Track(j) != Track(k)
  {
    if j / COLUMNS == k / COLUMNS { assert j % COLUMNS != k % COLUMNS; }
  }

  /** The track, or what is left of it, is a body. */
  lemma TrackIsBody(from: nat)
    requires from <= INTERIOR
    ensures IsBody(TrackFrom(from))
  {
    hide Track, Inside, Adjacent;
    var s := TrackFrom(from);
    forall i | 0 <= i < |s| ensures Inside(s[i]) && (i < |s| - 1 ==> Adjacent(s[i], s[i + 1])) { TrackStep(from + i); }
    forall i, j | 0 <= i < j < |s| ensures s[i] != s[j] { TrackOnce(from + i, from + j); }
  }

  /** A body can fill the whole board: then every interior cell is taken. */
  lemma FullBoard()
    ensures IsBody(TrackFrom(0)) && |TrackFrom(0)| == INTERIOR
    ensures forall p :: Inside(p) ==> p in TrackFrom(0)
  {
    TrackIsBody(0);
    FreeCells(TrackFrom(0), |TrackFrom(0)|);
  }

  lemma TrackStart()
    ensures Inside(Track(0)) && Track(0) == Step(Track(1), Left) && Track(1) == Step(Track(2), Left)
    ensures Track(0) == Position(1, 1)
  {
    assert Track(0) == Position(1, 1) && Track(1) == Position(2, 1) && Track(2) == Position(3, 1);
  }

  /** The last free cell, beside the head. */
  lemma LastCell()
    ensures TrackFrom(0) == [Track(0)] + TrackFrom(1)
    ensures Inside(Track(0)) && Track(0) !in TrackFrom(1) && Track(0) == Position(1, 1)
    ensures Track(0) == Step(Track(1), Left) && Track(1) == Step(Track(2), Left)
  {
    TrackStart();
    hide Track, Step, Inside;
    forall i | 0 <= i < |TrackFrom(1)| ensures TrackFrom(1)[i] != Track(0) { TrackOnce(0, i + 1); }
  }

  /** From the state in which one cell is left, and holds the food, the next tick never ends its search. */
  method LastBite(eaten: nat) returns (stuck: bool, ghost full: seq<Position>)
    requires 3 + eaten == INTERIOR - 1
    ensures stuck && full == TrackFrom(0)
  {
    LastCell();
    hide IsBody, Track, Step, Inside, LevelAfter, ScoreAfter;
    var game := new SnakeGame.AlmostFull(eaten);
    stuck := game.Update();
    full := game.Body();
  }
}
