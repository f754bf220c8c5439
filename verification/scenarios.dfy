/** Concrete runs of the rules: the first tick of a new game, the three ways
    a tick can end, and two key presses between ticks that turn the snake
    back onto itself. */
module Scenarios {
  import opened Grid
  import opened SnakeEntity
  import opened Rules

  /** From the start, with the food elsewhere, one tick moves the snake one
      cell to the right and drops its tail. */
  lemma FirstTick(food: Cell, f: Cell)
    requires food != Cell(7, 9)
    ensures Step(Initial(food), f) == Initial(food).(body := [Cell(7, 9), Cell(6, 9), Cell(5, 9)])
  {
    var s := Initial(food);
    assert Advance(s.body, s.direction, false) == [Cell(7, 9), Cell(6, 9), Cell(5, 9)];
    StepOutcome(s, f);
  }

  /** A head at the last column moving right crosses the edge: the game
      restarts, stopped, with score 0. */
  lemma RightEdgeEndsGame(s: Play, f: Cell)
    requires |s.body| > 0 && s.body[0] == Cell(CellCount - 1, 9)
    requires s.direction == Right && s.running && InGrid(s.food)
    ensures Step(s, f) == s.(body := InitialBody, direction := InitialDirection, addSegment := false, food := f, running := false, score := 0)
  {
    StepOutcome(s, f);
  }

  /** A snake of five turning down into its own third segment collides
      with itself once the move is made. */
  lemma SelfCollisionEndsGame(f: Cell)
    ensures
      var s := Play([Cell(5, 5), Cell(6, 5), Cell(6, 6), Cell(5, 6), Cell(4, 6)], Down, false, Cell(0, 0), true, false, 2);
      Step(s, f) == s.(body := InitialBody, direction := InitialDirection, food := f, running := false, score := 0)
  {
    var s := Play([Cell(5, 5), Cell(6, 5), Cell(6, 6), Cell(5, 6), Cell(4, 6)], Down, false, Cell(0, 0), true, false, 2);
    var moved := Advance(s.body, s.direction, false);
    assert moved == [Cell(5, 6), Cell(5, 5), Cell(6, 5), Cell(6, 6), Cell(5, 6)];
    assert moved[1..][3] == Cell(5, 6);
    StepOutcome(s, f);
  }

  /** The reverse guard compares with the current heading, which a key may
      have changed since the last move. Moving right, UP in one frame and
      LEFT in the next, both before the tick, are both accepted; the next
      tick then drives the head into the neck and ends the game. */
  lemma TwoTurnsBetweenTicksReverse(food: Cell, f: Cell)
    requires food != Cell(5, 9)
    ensures
      var up := Input(false, true, false, false, false, false);
      var left := Input(false, false, false, true, false, false);
      var tick := Input(true, false, false, false, false, false);
      var s1 := Frame(Initial(food), up, f);
      var s2 := Frame(s1, left, f);
      && s1.direction == Up
      && s2.direction == Left
      && Frame(s2, tick, f) == Initial(f).(running := false)
  {
    var s2 := Initial(food).(direction := Left);
    var moved := Advance(s2.body, s2.direction, false);
    assert moved == [Cell(5, 9), Cell(6, 9), Cell(5, 9)];
    assert moved[1..][1] == Cell(5, 9);
    StepOutcome(s2, f);
  }
}
