/**
  The Snake engine (games/snake.py): the score and its record, the chain of
  segments with its direction vector, the food, and one tick of the game loop.
  Canvas items are reduced to the top-left corner of their SEG_SIZE square;
  every coordinate the game produces is a multiple of SEG_SIZE.
 */
module SnakeGame {
  import opened Wrappers

  const Width := 700
  const Height := 400
  const SegSize := 25

  /** The top-left corner (x1, y1) of a square; its far corner is (x1 + SegSize, y1 + SegSize). */
  type Pos = (int, int)

  /** A direction, one of the four unit vectors of the key mapping. */
  type Vec = (int, int)

  function Max(a: int, b: int): (m: int)
    ensures m >= a && m >= b && (m == a || m == b)
  {
    if b > a then b else a
  }

  /** Both coordinates are multiples of SegSize. */
  predicate Aligned(p: Pos) {
    p.0 % SegSize == 0 && p.1 % SegSize == 0
  }

  // ---------------------------------------------------------------- direction

  /** The `mapping` table: the unit vector of an arrow key, None for any other key. */
  function KeyVector(keysym: string): Option<Vec> {
    if keysym == "Down" then Some((0, 1))
    else if keysym == "Up" then Some((0, -1))
    else if keysym == "Left" then Some((-1, 0))
    else if keysym == "Right" then Some((1, 0))
    else None
  }

  /** The `opposite` table of change_direction. */
  function OppositeKey(keysym: string): string
    requires KeyVector(keysym).Some?
  {
    if keysym == "Up" then "Down"
    else if keysym == "Down" then "Up"
    else if keysym == "Left" then "Right"
    else "Left"
  }

  function Negate(v: Vec): Vec {
    (-v.0, -v.1)
  }

  predicate IsUnit(v: Vec) {
    v == (0, 1) || v == (0, -1) || v == (-1, 0) || v == (1, 0)
  }

  /**
    The vector after change_direction sees `keysym`: keys outside the arrow
    keys are ignored, the exact reverse of the current heading is refused,
    and any other arrow key sets the heading to its unit vector.
   */
  function Steer(vector: Vec, keysym: string): (v: Vec)
    ensures KeyVector(keysym).None? ==> v == vector
    ensures KeyVector(keysym).Some? && vector == Negate(KeyVector(keysym).value) ==> v == vector
    ensures KeyVector(keysym).Some? && vector != Negate(KeyVector(keysym).value) ==> v == KeyVector(keysym).value
    ensures IsUnit(vector) ==> IsUnit(v) && v != Negate(vector)
  {
    if KeyVector(keysym).Some? then
      if vector != KeyVector(OppositeKey(keysym)).value then KeyVector(keysym).value else vector
    else vector
  }

  /**
    Refusing only the exact reverse of the current vector does not stop a
    reversal within one tick: two keys pressed between ticks turn the snake
    right round.
   */
  lemma TwoKeysReverseHeading()
    ensures Steer(Steer((1, 0), "Up"), "Left") == Negate((1, 0))
  {
  }

  // ---------------------------------------------------------------- field and food

  /** The square at p leaves the canvas (the wall test of main_loop). */
  predicate OutOfField(p: Pos) {
    p.0 + SegSize > Width || p.0 < 0 || p.1 < 0 || p.1 + SegSize > Height
  }

  /** The random factors create_block may draw: randint(1, (WIDTH - SEG_SIZE) // SEG_SIZE) and its y counterpart. */
  predicate FoodDraw(kx: int, ky: int) {
    1 <= kx <= (Width - SegSize) / SegSize && 1 <= ky <= (Height - SegSize) / SegSize
  }

  /** Where create_block can put the food. */
  predicate FoodCell(p: Pos) {
    SegSize <= p.0 <= Width - SegSize && SegSize <= p.1 <= Height - SegSize && Aligned(p)
  }

  /** create_block: the food square for the random draws kx, ky. */
  function CreateBlock(kx: int, ky: int): (p: Pos)
    requires FoodDraw(kx, ky)
    ensures FoodCell(p)
    ensures 0 <= p.0 && p.0 + SegSize <= Width && 0 <= p.1 && p.1 + SegSize <= Height
    ensures !OutOfField(p)
  {
    (SegSize * kx, SegSize * ky)
  }

  /** Every cell that FoodCell admits is the result of some draw. */
  lemma EveryFoodCellCanBeDrawn(p: Pos)
    requires FoodCell(p)
    ensures FoodDraw(p.0 / SegSize, p.1 / SegSize) && CreateBlock(p.0 / SegSize, p.1 / SegSize) == p
  {
  }

  // ---------------------------------------------------------------- the chain

  /** What move makes of a chain: each segment takes its successor's place, the head advances one square. */
  function Moved(segments: seq<Pos>, vector: Vec): seq<Pos>
    requires |segments| >= 1
  {
    var head := segments[|segments| - 1];
    segments[1..] + [(head.0 + vector.0 * SegSize, head.1 + vector.1 * SegSize)]
  }

  /** The three segments create_snake builds, tail first. */
  const InitialSegments: seq<Pos> := [(SegSize, SegSize), (SegSize * 2, SegSize), (SegSize * 3, SegSize)]

  predicate AllAligned(segments: seq<Pos>) {
    forall i :: 0 <= i < |segments| ==> Aligned(segments[i])
  }

  /** Moving keeps every segment on the SegSize grid when the vector is a unit vector. */
  lemma MovedAligned(segments: seq<Pos>, vector: Vec)
    requires |segments| >= 1 && AllAligned(segments) && IsUnit(vector)
    ensures AllAligned(Moved(segments, vector))
  {
    var m := Moved(segments, vector);
    forall i | 0 <= i < |m| ensures Aligned(m[i]) {
      if i < |m| - 1 {
        assert m[i] == segments[i + 1];
      }
    }
  }

  /** The score of the current game and the best score ever reached. */
  class Score {
    var value: int
    var record: int

    /** The record comes from the record file (0 when there is none). */
    constructor (storedRecord: int)
      ensures value == 0 && record == storedRecord
    {
      value := 0;
      record := storedRecord;
    }

    /** increment: one more point; the record follows the score when the score passes it. */
    method Increment()
      modifies this
      ensures value == old(value) + 1
      ensures record == Max(old(record), value)
      ensures record >= value && record >= old(record)
    {
      value := value + 1;
      if value > record {
        record := value;
      }
    }

    /** reset: the score goes back to zero, the record stays. */
    method Reset()
      modifies this`value
      ensures value == 0 && record == old(record)
    {
      value := 0;
    }
  }

  /** The segment list, tail first and head last, and the direction of travel. */
  class Snake {
    var segments: seq<Pos>
    var vector: Vec

    constructor (segments: seq<Pos>)
      ensures this.segments == segments && vector == (1, 0)
    {
      this.segments := segments;
      vector := (1, 0);
    }

    /**
      move: every segment but the head is moved onto the next one, then the
      head is put one square beyond its old place (read back from the
      segment before it, which now sits there).
     */
    method Move()
      requires |segments| >= 2
      modifies this`segments
      ensures |segments| == |old(segments)|
      ensures forall i :: 0 <= i < |segments| - 1 ==> segments[i] == old(segments)[i + 1]
      ensures segments[|segments| - 1] ==
                (old(segments)[|segments| - 1].0 + vector.0 * SegSize, old(segments)[|segments| - 1].1 + vector.1 * SegSize)
      ensures segments == Moved(old(segments), vector)
    {
      var n := |segments|;
      for index := 0 to n - 1
        invariant |segments| == n
        invariant forall i :: 0 <= i < index ==> segments[i] == old(segments)[i + 1]
        invariant forall i :: index <= i < n ==> segments[i] == old(segments)[i]
      {
        segments := segments[index := segments[index + 1]];
      }
      var (x1, y1) := segments[n - 2];
      segments := segments[n - 1 := (x1 + vector.0 * SegSize, y1 + vector.1 * SegSize)];
    }

    /**
      add_segment: one more point, and a new segment in front of the list,
      on the square of the current tail (read back from its far corner).
     */
    method AddSegment(score: Score)
      requires |segments| >= 1
      modifies this`segments, score
      ensures segments == [old(segments)[0]] + old(segments)
      ensures score.value == old(score.value) + 1 && score.record == Max(old(score.record), score.value)
    {
      score.Increment();
      var (x1, y1) := segments[0];
      var x2, y2 := x1 + SegSize, y1 + SegSize;
      segments := [(x2 - SegSize, y2 - SegSize)] + segments;
    }

    /** change_direction for the key `keysym`. */
    method ChangeDirection(keysym: string)
      modifies this`vector
      ensures vector == Steer(old(vector), keysym)
    {
      var mapping := KeyVector(keysym);
      if mapping.Some? {
        if vector != KeyVector(OppositeKey(keysym)).value {
          vector := mapping.value;
        }
      }
    }
  }

  /** How one run of main_loop ends. */
  datatype TickResult =
    | Rescheduled  // the next run is scheduled in 100 ms
    | Stopped      // in_game was false: the loss message is drawn and nothing is scheduled
    | Halted       // the self-collision branch calls an undefined game_over: NameError, nothing is scheduled

  class Game {
    var score: Score
    var snake: Snake
    var food: Pos
    var inGame: bool
    var paused: bool

    /** At least three segments, all on the SegSize grid, a unit heading, food where create_block puts it. */
    ghost predicate Valid()
      reads this, snake
    {
      |snake.segments| >= 3 && AllAligned(snake.segments) && IsUnit(snake.vector) && FoodCell(food)
    }

    /** create_snake: a fresh chain of three segments heading right. */
    static method CreateSnake() returns (s: Snake)
      ensures fresh(s)
      ensures s.segments == InitialSegments && s.vector == (1, 0)
    {
      s := new Snake(InitialSegments);
    }

    /**
      __init__ up to the first run of main_loop: score with the stored
      record, food from the draws kx, ky, a new snake, running and not paused.
     */
    constructor (storedRecord: int, kx: int, ky: int)
      requires FoodDraw(kx, ky)
      ensures Valid() && fresh(score) && fresh(snake)
      ensures score.value == 0 && score.record == storedRecord
      ensures food == CreateBlock(kx, ky) && snake.segments == InitialSegments && snake.vector == (1, 0)
      ensures inGame && !paused
    {
      inGame, paused := true, false;
      score := new Score(storedRecord);
      food := CreateBlock(kx, ky);
      var s := Game.CreateSnake();
      snake := s;
    }

    /** game_over: the loop is not carried on once in_game is false. */
    method GameOver()
      modifies this`inGame
      ensures !inGame
    {
      inGame := false;
    }

    /** pause_game: flips the pause flag. */
    method PauseGame()
      modifies this`paused
      ensures paused == !old(paused)
    {
      paused := !paused;
    }

    /**
      One run of main_loop. When running and not paused the snake moves,
      then the wall test, the food test and the self-collision test are
      tried in that order. kx, ky are the draws for a new food square.
     */
    method Tick(kx: int, ky: int) returns (t: TickResult)
      requires Valid() && FoodDraw(kx, ky)
      modifies this, snake, score
      ensures Valid() && snake == old(snake) && score == old(score)
      ensures snake.vector == old(snake.vector) && paused == old(paused)
      ensures score.record >= old(score.record)
      ensures !old(inGame) ==>
                t == Stopped && !inGame && snake.segments == old(snake.segments) && food == old(food) &&
                score.value == old(score.value) && score.record == old(score.record)
      ensures old(inGame) && old(paused) ==>
                t == Rescheduled && inGame && snake.segments == old(snake.segments) && food == old(food) &&
                score.value == old(score.value) && score.record == old(score.record)
      ensures old(inGame) && !old(paused) ==>
                var moved := Moved(old(snake.segments), old(snake.vector));
                var head := moved[|moved| - 1];
                (OutOfField(head) ==>
                   t == Rescheduled && !inGame && snake.segments == moved && food == old(food) &&
                   score.value == old(score.value) && score.record == old(score.record)) &&
                (!OutOfField(head) && head == old(food) ==>
                   t == Rescheduled && inGame && snake.segments == [moved[0]] + moved && food == CreateBlock(kx, ky) &&
                   score.value == old(score.value) + 1 && score.record == Max(old(score.record), score.value)) &&
                (!OutOfField(head) && head != old(food) ==>
                   inGame && snake.segments == moved && food == old(food) &&
                   score.value == old(score.value) && score.record == old(score.record) &&
                   (t == Halted <==> head in moved[..|moved| - 1]) && (t != Halted ==> t == Rescheduled))
    {
      if !inGame {
        return Stopped;
      }
      if !paused {
        ghost var before := snake.segments;
        snake.Move();
        MovedAligned(before, snake.vector);
        var n := |snake.segments|;
        var (x1, y1) := snake.segments[n - 1];
        var x2, y2 := x1 + SegSize, y1 + SegSize;
        if x2 > Width || x1 < 0 || y1 < 0 || y2 > Height {
          GameOver();
        } else if (x1, y1) == food {
          snake.AddSegment(score);
          food := CreateBlock(kx, ky);
        } else {
          for index := 0 to n - 1
            invariant forall i :: 0 <= i < index ==> snake.segments[i] != (x1, y1)
          {
            if (x1, y1) == snake.segments[index] {
              return Halted;
            }
          }
        }
      }
      return Rescheduled;
    }

    /**
      restart_game: running, not paused, score 0 with the record kept, new
      food from kx, ky and a new snake, and then, as the source's last
      statement, an immediate run of main_loop with kx2, ky2 for the food it
      may need. That run moves the new snake one square to the right.
     */
    method RestartGame(kx: int, ky: int, kx2: int, ky2: int) returns (t: TickResult)
      requires FoodDraw(kx, ky) && FoodDraw(kx2, ky2)
      modifies this, score
      ensures Valid() && fresh(snake) && score == old(score)
      ensures t == Rescheduled && inGame && !paused && snake.vector == (1, 0)
      ensures score.record >= old(score.record)
      ensures CreateBlock(kx, ky) != (SegSize * 4, SegSize) ==>
                snake.segments == [(SegSize * 2, SegSize), (SegSize * 3, SegSize), (SegSize * 4, SegSize)] &&
                food == CreateBlock(kx, ky) && score.value == 0 && score.record == old(score.record)
      ensures CreateBlock(kx, ky) == (SegSize * 4, SegSize) ==>
                snake.segments == [(SegSize * 2, SegSize), (SegSize * 2, SegSize), (SegSize * 3, SegSize), (SegSize * 4, SegSize)] &&
                food == CreateBlock(kx2, ky2) && score.value == 1 && score.record == Max(old(score.record), 1)
    {
      inGame := true;
      paused := false;
      score.Reset();
      food := CreateBlock(kx, ky);
      snake := CreateSnake();
      t := Tick(kx2, ky2);
    }
  }

  /** Pausing twice leaves the game as it was. */
  method PauseTwice(g: Game)
    modifies g`paused
    ensures g.paused == old(g.paused) && g.inGame == old(g.inGame) && g.snake == old(g.snake)
  {
    g.PauseGame();
    g.PauseGame();
  }
}
