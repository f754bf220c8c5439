/** The snake: an ordered body of cells (head first), a heading, and a
    one-shot growth flag. */
module SnakeEntity {
  import opened Grid

  /** The body a new or reset snake starts with, head first. */
  const InitialBody: seq<Cell> := [Cell(6, 9), Cell(5, 9), Cell(4, 9)]

  /** The heading a new or reset snake starts with. */
  const InitialDirection: Cell := Right

  /** The body after one move: a new head one step along `direction`; the
      tail cell is kept when `grow` is set and dropped otherwise. */
  function Advance(body: seq<Cell>, direction: Cell, grow: bool): (r: seq<Cell>)
    requires |body| > 0
    ensures |r| == |body| + (if grow then 1 else 0)
    ensures r[0] == Add(body[0], direction)
    ensures forall i :: 0 < i < |r| ==> r[i] == body[i - 1]
  {
    var pushed := [Add(body[0], direction)] + body;
    if grow then pushed else pushed[..|pushed| - 1]
  }

  class Snake {
    var body: seq<Cell>
    var direction: Cell
    var addSegment: bool

    constructor ()
      ensures body == InitialBody && direction == InitialDirection && !addSegment
    {
      body := InitialBody;
      direction := InitialDirection;
      addSegment := false;
    }

    /** One move: push the new head at the front, then either consume a
        pending growth or pop the tail from the back. */
    method Update()
      requires |body| > 0
      modifies this
      ensures body == Advance(old(body), old(direction), old(addSegment))
      ensures !old(addSegment) ==> body == [Add(old(body)[0], direction)] + old(body)[..|old(body)| - 1]
      ensures old(addSegment) ==> body == [Add(old(body)[0], direction)] + old(body)
      ensures direction == old(direction) && !addSegment
    {
      body := [Add(body[0], direction)] + body;
      if addSegment {
        addSegment := false;
      } else {
        body := body[..|body| - 1];
      }
    }

    /** Restores the initial body and heading. A pending growth is left as
        it was. */
    method Reset()
      modifies this
      ensures body == InitialBody && direction == InitialDirection
      ensures addSegment == old(addSegment)
    {
      body := InitialBody;
      direction := InitialDirection;
    }
  }
}
