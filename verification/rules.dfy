/** The game's rules as functions on a value `Play` holding everything the
    controller and its snake and food own. The controller class is proved
    to follow these functions; the lemmas here state what the rules
    promise. */
module Rules {
  import opened Grid
  import opened SnakeEntity

  datatype Play = Play(
    body: seq<Cell>,
    direction: Cell,
    addSegment: bool,
    food: Cell,
    running: bool,
    paused: bool,
    score: int)

  // ---------------------------------------------------------------------
  // One tick: move, then the food, edge and self checks, in that order.
  // ---------------------------------------------------------------------

  /** The snake's own move; a pending growth is consumed. */
  function Move(s: Play): Play
    requires |s.body| > 0
  {
    s.(body := Advance(s.body, s.direction, s.addSegment), addSegment := false)
  }

  /** The game-over reset; `f` is where the food is placed afterwards.
      The pending-growth flag is left as it was. */
  function Restart(s: Play, f: Cell): Play {
    s.(body := InitialBody, direction := InitialDirection, food := f, running := false, score := 0)
  }

  /** Eating: when the head is on the food, the food moves to `f`, a segment
      is pending and the score goes up by one. */
  function FoodCheck(s: Play, f: Cell): Play
    requires |s.body| > 0
  {
    if s.body[0] == s.food then s.(food := f, addSegment := true, score := s.score + 1) else s
  }

  predicate OnXEdge(c: Cell) {
    c.x == CellCount || c.x == -1
  }

  predicate OnYEdge(c: Cell) {
    c.y == CellCount || c.y == -1
  }

  /** The two edge tests, the second made on the state the first left. */
  function EdgeCheck(s: Play, f: Cell): (r: Play)
    requires |s.body| > 0
    ensures |r.body| > 0
  {
    var s1 := if OnXEdge(s.body[0]) then Restart(s, f) else s;
    if OnYEdge(s1.body[0]) then Restart(s1, f) else s1
  }

  /** The head lies on another segment. */
  predicate HitsTail(s: Play)
    requires |s.body| > 0
  {
    s.body[0] in s.body[1..]
  }

  function TailCheck(s: Play, f: Cell): Play
    requires |s.body| > 0
  {
    if HitsTail(s) then Restart(s, f) else s
  }

  /** One tick of the controller; nothing happens unless it is running.
      `f` is the cell where the food ends up whenever this tick moves it
      (when it moves twice, the later placement is the one that stays). */
  function Step(s: Play, f: Cell): Play
    requires |s.body| > 0
  {
    if !s.running then s
    else TailCheck(EdgeCheck(FoodCheck(Move(s), f), f), f)
  }

  /** The checks of a tick, each given the food cell it leaves, compose to
      Step given the cell the food ends on: a later placement overwrites an
      earlier one, and a restart does not depend on where the food was. */
  lemma ChecksCompose(s: Play, a: Play, e: Play, t: Play)
    requires |s.body| > 0 && s.running
    requires a == FoodCheck(Move(s), a.food)
    requires e == EdgeCheck(a, e.food)
    requires t == TailCheck(e, t.food)
    ensures t == Step(s, t.food)
  {
    var m := Move(s);
    var f := t.food;
    assert |a.body| > 0;
    if HitsTail(e) {
      assert EdgeCheck(FoodCheck(m, f), f).(food := e.food) == e;
    } else if OnXEdge(a.body[0]) || OnYEdge(a.body[0]) {
      assert e.food == f;
      assert FoodCheck(m, f).(food := a.food) == a;
    } else {
      assert e == a && a.food == f;
    }
  }

  // ---------------------------------------------------------------------
  // The outcome of a tick, stated directly.
  // ---------------------------------------------------------------------

  /** The cell the head moves to. */
  function NextHead(s: Play): Cell
    requires |s.body| > 0
  {
    Add(s.body[0], s.direction)
  }

  /** This tick eats the food. */
  predicate Eats(s: Play)
    requires |s.body| > 0
  {
    s.running && NextHead(s) == s.food
  }

  /** This tick ends the game: the head leaves the board across an edge or
      lands on another segment of the moved body. */
  predicate Ends(s: Play)
    requires |s.body| > 0
  {
    && s.running
    && (OnXEdge(NextHead(s)) || OnYEdge(NextHead(s))
        || NextHead(s) in Advance(s.body, s.direction, s.addSegment)[1..])
  }

  /** Step, case by case: a tick that ends the game restarts it stopped
      with score 0; one that eats grows the snake by a pending segment and
      scores one; any other running tick only moves the snake. */
  lemma StepOutcome(s: Play, f: Cell)
    requires |s.body| > 0
    ensures Step(s, f) ==
      if !s.running then s
      else if Ends(s) then
        Play(InitialBody, InitialDirection, Eats(s), f, false, s.paused, 0)
      else if Eats(s) then
        Play(Advance(s.body, s.direction, s.addSegment), s.direction, true, f, true, s.paused, s.score + 1)
      else
        Play(Advance(s.body, s.direction, s.addSegment), s.direction, false, s.food, true, s.paused, s.score)
  {
    if s.running {
      var m := Move(s);
      var a := FoodCheck(m, f);
      assert a.body == m.body && a.body[0] == NextHead(s);
      var e := EdgeCheck(a, f);
      assert InitialBody[0] !in InitialBody[1..];
      if OnXEdge(NextHead(s)) || OnYEdge(NextHead(s)) {
        assert e == Restart(a, f);
      } else {
        assert e == a;
      }
    }
  }

  // ---------------------------------------------------------------------
  // The invariant of a game in progress.
  // ---------------------------------------------------------------------

  /** What holds of every state the game reaches: the body is never shorter
      than at the start, lies on the board and never overlaps itself; the
      heading is a unit step; the food is on the board and off the body;
      and the score counts the segments grown, a pending one included. */
  ghost predicate Inv(s: Play) {
    && |s.body| >= |InitialBody|
    && IsDirection(s.direction)
    && (forall i :: 0 <= i < |s.body| ==> InGrid(s.body[i]))
    && Distinct(s.body)
    && InGrid(s.food) && s.food !in s.body
    && s.score + |InitialBody| == |s.body| + (if s.addSegment then 1 else 0)
  }

  /** A new game that is running, with its food at `food`. */
  function Initial(food: Cell): Play {
    Play(InitialBody, InitialDirection, false, food, true, false, 0)
  }

  lemma InitialInv(food: Cell)
    requires InGrid(food) && food !in InitialBody
    ensures Inv(Initial(food))
  {
  }

  /** From a cell on the board, a unit step that does not land on an edge
      line stays on the board. */
  lemma StepOffEdgeStaysInGrid(c: Cell, d: Cell)
    requires InGrid(c) && IsDirection(d)
    requires !OnXEdge(Add(c, d)) && !OnYEdge(Add(c, d))
    ensures InGrid(Add(c, d))
  {
  }

  /** A move that does not end the game leaves a body without overlaps. */
  lemma {:induction false} MovedBodyDistinct(body: seq<Cell>, d: Cell, grow: bool)
    requires |body| > 0 && Distinct(body)
    requires Add(body[0], d) !in Advance(body, d, grow)[1..]
    ensures Distinct(Advance(body, d, grow))
  {
    var r := Advance(body, d, grow);
    forall i, j | 0 <= i < j < |r| ensures r[i] != r[j] {
      if i == 0 {
        assert r[j] == r[1..][j - 1];
      } else {
        assert r[i] == body[i - 1] && r[j] == body[j - 1];
      }
    }
  }

  /** A tick that eats cannot end the game: the food is on the board and
      off the body, so the head that reaches it neither crosses an edge nor
      lands on another segment. Hence the growth flag that the reset leaves
      alone is always clear when a game ends. */
  lemma EatingNeverEnds(s: Play)
    requires Inv(s) && Eats(s)
    ensures !Ends(s)
  {
  }

  /** A tick that eats, in a reachable state: the snake moves, a segment
      becomes pending, the score goes up by one, the game keeps running and
      the food is where it was placed. */
  lemma EatingTick(s: Play, f: Cell)
    requires Inv(s) && Eats(s)
    ensures Step(s, f) ==
      Play(Advance(s.body, s.direction, s.addSegment), s.direction, true, f, true, s.paused, s.score + 1)
  {
    StepOutcome(s, f);
    EatingNeverEnds(s);
  }

  /** A tick that ends the game, in a reachable state: the snake is back at
      its start, stopped, with score 0, and no segment is pending even
      though the restart itself leaves that flag alone. */
  lemma EndingTick(s: Play, f: Cell)
    requires Inv(s) && Ends(s)
    ensures Step(s, f) == Play(InitialBody, InitialDirection, false, f, false, s.paused, 0)
  {
    StepOutcome(s, f);
    if Eats(s) {
      EatingNeverEnds(s);
    }
  }

  /** Every tick keeps the invariant, given that the cell where the food is
      placed, if it is placed, is on the board and off the new body. */
  lemma StepKeepsInv(s: Play, f: Cell)
    requires Inv(s)
    requires Eats(s) || Ends(s) ==> InGrid(f) && f !in Step(s, f).body
    ensures Inv(Step(s, f))
  {
    StepOutcome(s, f);
    if s.running {
      var moved := Advance(s.body, s.direction, s.addSegment);
      if Ends(s) {
        if Eats(s) {
          EatingNeverEnds(s);
        }
      } else {
        StepOffEdgeStaysInGrid(s.body[0], s.direction);
        MovedBodyDistinct(s.body, s.direction, s.addSegment);
        forall i | 0 <= i < |moved| ensures InGrid(moved[i]) {
          if i > 0 {
            assert moved[i] == s.body[i - 1];
          }
        }
      }
    }
  }

  /** The head never leaves the board: a head that starts on the board and
      moves by a unit step is either still on it after the tick, or the
      edge check has reset the snake to a head that is. */
  lemma StepKeepsHeadInGrid(s: Play, f: Cell)
    requires |s.body| > 0 && InGrid(s.body[0]) && IsDirection(s.direction)
    ensures |Step(s, f).body| > 0 && InGrid(Step(s, f).body[0])
  {
    StepOutcome(s, f);
    if s.running && !Ends(s) {
      StepOffEdgeStaysInGrid(s.body[0], s.direction);
    }
  }

  // ---------------------------------------------------------------------
  // Keyboard input.
  // ---------------------------------------------------------------------

  datatype Key = KeyUp | KeyDown | KeyLeft | KeyRight

  /** The heading a direction key selects. */
  function Heading(k: Key): Cell {
    match k
    case KeyUp => Up
    case KeyDown => Down
    case KeyLeft => Left
    case KeyRight => Right
  }

  /** The guard of a direction key: not paused, and the component test that
      rules out the opposite heading. */
  predicate Accepts(s: Play, k: Key) {
    && !s.paused
    && match k
       case KeyUp => s.direction.y != 1
       case KeyDown => s.direction.y != -1
       case KeyLeft => s.direction.x != 1
       case KeyRight => s.direction.x != -1
  }

  /** An accepted direction key sets the heading and (re)starts the game. */
  function Turn(s: Play, k: Key): Play {
    if Accepts(s, k) then s.(direction := Heading(k), running := true) else s
  }

  /** The Q key flips the pause flag. */
  function TogglePause(s: Play): Play {
    s.(paused := !s.paused)
  }

  /** For a unit heading, the component tests accept exactly the keys whose
      heading is not the reverse of the current one, and only when not
      paused. */
  lemma AcceptsIffNotReverse(s: Play, k: Key)
    requires IsDirection(s.direction)
    ensures Accepts(s, k) <==> !s.paused && Heading(k) != Reverse(s.direction)
  {
  }

  lemma TurnKeepsInv(s: Play, k: Key)
    requires Inv(s)
    ensures Inv(Turn(s, k))
    ensures Turn(s, k).(direction := s.direction, running := s.running) == s
  {
  }

  /** Pausing changes the pause flag and nothing else. */
  lemma TogglePauseOnlyFlips(s: Play)
    ensures TogglePause(s).paused == !s.paused
    ensures TogglePause(s).(paused := s.paused) == s
    ensures TogglePause(TogglePause(s)) == s
    ensures Inv(s) ==> Inv(TogglePause(s))
  {
  }

  // ---------------------------------------------------------------------
  // One pass of the main loop.
  // ---------------------------------------------------------------------

  /** What the main loop reads in one frame: whether the tick interval has
      elapsed, and which keys were pressed. */
  datatype Input = Input(tickDue: bool, up: bool, down: bool, left: bool, right: bool, q: bool)

  /** The tick, gated by the interval and by the pause flag. */
  function GatedTick(s: Play, tickDue: bool, f: Cell): Play
    requires |s.body| > 0
  {
    if tickDue && !s.paused then Step(s, f) else s
  }

  /** The effect of key `k` if it was pressed. */
  function TurnIf(s: Play, pressed: bool, k: Key): Play {
    if pressed then Turn(s, k) else s
  }

  /** The key handling of one frame, in the order the loop tests the keys. */
  function Keys(s: Play, i: Input): Play {
    var d := TurnIf(TurnIf(TurnIf(TurnIf(s, i.up, KeyUp), i.down, KeyDown), i.left, KeyLeft), i.right, KeyRight);
    if i.q then TogglePause(d) else d
  }

  /** One frame: the gated tick first, then the keys. */
  function Frame(s: Play, i: Input, f: Cell): Play
    requires |s.body| > 0
  {
    Keys(GatedTick(s, i.tickDue, f), i)
  }

  /** While paused, a frame neither ticks nor turns: only the Q key has an
      effect, and it only flips the pause flag. */
  lemma PausedFrameChangesOnlyPause(s: Play, i: Input, f: Cell)
    requires |s.body| > 0 && s.paused
    ensures Frame(s, i, f) == if i.q then TogglePause(s) else s
  {
  }

  lemma FrameKeepsInv(s: Play, i: Input, f: Cell)
    requires Inv(s)
    requires i.tickDue && !s.paused && (Eats(s) || Ends(s)) ==> InGrid(f) && f !in Step(s, f).body
    ensures Inv(Frame(s, i, f))
  {
    if i.tickDue && !s.paused {
      StepKeepsInv(s, f);
    }
    KeysKeepInv(GatedTick(s, i.tickDue, f), i);
  }

  lemma KeysKeepInv(t: Play, i: Input)
    requires Inv(t)
    ensures Inv(Keys(t, i))
  {
    var a := TurnIf(t, i.up, KeyUp);
    TurnKeepsInv(t, KeyUp);
    var b := TurnIf(a, i.down, KeyDown);
    TurnKeepsInv(a, KeyDown);
    var c := TurnIf(b, i.left, KeyLeft);
    TurnKeepsInv(b, KeyLeft);
    var d := TurnIf(c, i.right, KeyRight);
    TurnKeepsInv(c, KeyRight);
    TogglePauseOnlyFlips(d);
  }
}
