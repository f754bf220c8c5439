/** The game controller: it owns the snake, the food and (here explicitly)
    the random source, keeps the score and the running and paused flags,
    and is driven once per frame by the main loop. */
module Controller {
  import opened Grid
  import opened Randomness
  import opened SnakeEntity
  import opened FoodEntity
  import opened Rules

  /** Room for the food after the next move: the moved body is shorter than
      the board. A tick that eats places the food beside the moved body,
      and on a full board that rejection loop would never return; a game
      over places it beside the short initial body and always returns. */
  predicate RoomAfterMove(body: seq<Cell>, addSegment: bool) {
    |body| + (if addSegment then 1 else 0) < CellCount * CellCount
  }

  class Game {
    const player: Snake
    const food: Food
    const rng: RandomSource
    var running: bool
    var paused: bool
    var score: int

    /** Everything the game's rules are about, as one value. */
    ghost function State(): Play
      reads this, player, food
    {
      Play(player.body, player.direction, player.addSegment, food.position, running, paused, score)
    }

    ghost predicate Valid()
      reads this, player, food
    {
      Inv(State()) && Fair(rng.gen)
    }

    /** A new game: initial snake, food off its body, running, not paused,
        score 0. */
    constructor (rng: RandomSource)
      requires Fair(rng.gen)
      modifies rng
      ensures Valid() && this.rng == rng
      ensures State() == Initial(food.position)
    {
      var snake := new Snake();
      FairFindsFree(rng.gen, rng.drawn, snake.body);
      var placed := new Food(snake.body, rng);
      InitialInv(placed.position);
      player := snake;
      food := placed;
      this.rng := rng;
      running := true;
      paused := false;
      score := 0;
    }

    method GameOver()
      requires Fair(rng.gen)
      modifies this, player, food, rng
      ensures State() == Restart(old(State()), food.position)
      ensures InGrid(food.position) && food.position !in player.body
    {
      player.Reset();
      FairFindsFree(rng.gen, rng.drawn, player.body);
      ghost var rejected;
      food.position, rejected := food.GenRandomPos(player.body, rng);
      running := false;
      score := 0;
    }

    method CheckCollisionWithFood()
      requires |player.body| > 0 && Fair(rng.gen)
      requires player.body[0] == food.position ==> |player.body| < CellCount * CellCount
      modifies this, player, food, rng
      ensures State() == FoodCheck(old(State()), food.position)
      ensures old(player.body[0] == food.position) ==> InGrid(food.position) && food.position !in player.body
    {
      if player.body[0] == food.position {
        FairFindsFree(rng.gen, rng.drawn, player.body);
        ghost var rejected;
        food.position, rejected := food.GenRandomPos(player.body, rng);
        player.addSegment := true;
        score := score + 1;
      }
    }

    method CheckCollisionWithEdge()
      requires |player.body| > 0 && Fair(rng.gen)
      modifies this, player, food, rng
      ensures State() == EdgeCheck(old(State()), food.position)
      ensures OnXEdge(old(player.body[0])) || OnYEdge(old(player.body[0])) ==>
                InGrid(food.position) && food.position !in player.body
    {
      if player.body[0].x == CellCount || player.body[0].x == -1 {
        GameOver();
      }
      if player.body[0].y == CellCount || player.body[0].y == -1 {
        GameOver();
      }
    }

    method CheckCollisionWithTail()
      requires |player.body| > 0 && Fair(rng.gen)
      modifies this, player, food, rng
      ensures State() == TailCheck(old(State()), food.position)
      ensures HitsTail(old(State())) ==> InGrid(food.position) && food.position !in player.body
    {
      var headlessBody := player.body[1..];
      var hit := ElementInDeque(player.body[0], headlessBody);
      if hit {
        GameOver();
      }
    }

    /** One tick: move, then test food, edges and self, in that order. */
    method Update()
      requires Valid()
      requires Eats(State()) ==>
                 RoomAfterMove(player.body, player.addSegment)
      modifies this, player, food, rng
      ensures Valid()
      ensures State() == Step(old(State()), food.position)
    {
      if running {
        ghost var s := State();
        player.Update();
        assert State() == Move(s);
        CheckCollisionWithFood();
        ghost var a := State();
        CheckCollisionWithEdge();
        ghost var e := State();
        CheckCollisionWithTail();
        ChecksCompose(s, a, e, State());
        StepKeepsInv(s, food.position);
      }
    }

    // -------------------------------------------------------------------
    // The main loop's input handling, one method per part of a frame.
    // -------------------------------------------------------------------

    /** The tick runs only when the interval has elapsed and the game is not
        paused. */
    method Tick(tickDue: bool)
      requires Valid()
      requires tickDue && !paused && Eats(State()) ==>
                 RoomAfterMove(player.body, player.addSegment)
      modifies this, player, food, rng
      ensures Valid()
      ensures State() == GatedTick(old(State()), tickDue, food.position)
    {
      if tickDue && paused == false {
        Update();
      }
    }

    /** A direction key, guarded against pausing and against the reverse of
        the current heading; an accepted key also sets the game running. */
    method PressDirection(k: Key)
      requires Valid()
      modifies this, player
      ensures Valid()
      ensures State() == Turn(old(State()), k)
    {
      match k
      case KeyUp =>
        if player.direction.y != 1 && !paused {
          player.direction := Up;
          running := true;
        }
      case KeyDown =>
        if player.direction.y != -1 && !paused {
          player.direction := Down;
          running := true;
        }
      case KeyLeft =>
        if player.direction.x != 1 && !paused {
          player.direction := Left;
          running := true;
        }
      case KeyRight =>
        if player.direction.x != -1 && !paused {
          player.direction := Right;
          running := true;
        }
      TurnKeepsInv(old(State()), k);
    }

    /** The Q key toggles the pause flag. */
    method PressPause()
      requires Valid()
      modifies this
      ensures Valid()
      ensures State() == TogglePause(old(State()))
    {
      if paused == true {
        paused := false;
      } else {
        paused := true;
      }
      TogglePauseOnlyFlips(old(State()));
    }

    /** The key handling of one frame: the four direction keys and the Q
        key, tested in that order. */
    method HandleKeys(input: Input)
      requires Valid()
      modifies this, player
      ensures Valid()
      ensures State() == Keys(old(State()), input)
    {
      ghost var t := State();
      if input.up {
        PressDirection(KeyUp);
      }
      ghost var a := State();
      assert a == TurnIf(t, input.up, KeyUp);
      if input.down {
        PressDirection(KeyDown);
      }
      ghost var b := State();
      assert b == TurnIf(a, input.down, KeyDown);
      if input.left {
        PressDirection(KeyLeft);
      }
      ghost var c := State();
      assert c == TurnIf(b, input.left, KeyLeft);
      if input.right {
        PressDirection(KeyRight);
      }
      ghost var d := State();
      assert d == TurnIf(c, input.right, KeyRight);
      if input.q {
        PressPause();
      }
    }

    /** One pass of the main loop without its drawing: the gated tick, then
        the keys. */
    method HandleFrame(input: Input)
      requires Valid()
      requires input.tickDue && !paused && Eats(State()) ==>
                 RoomAfterMove(player.body, player.addSegment)
      modifies this, player, food, rng
      ensures Valid()
      ensures State() == Frame(old(State()), input, food.position)
    {
      ghost var s := State();
      Tick(input.tickDue);
      HandleKeys(input);
      FrameKeepsInv(s, input, food.position);
    }
  }
}
