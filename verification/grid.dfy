/** The playing field of the snake game: grid cells, the four headings, and
    the occupancy test that asks whether a cell is covered by a body. */
module Grid {

  /** A grid cell. The game stores cells in floating-point vectors, but every
      value it ever puts there is a small integer. */
  datatype Cell = Cell(x: int, y: int)

  /** Number of cells along each side of the square playing field. */
  const CellCount: int := 25

  const Up: Cell := Cell(0, -1)
  const Down: Cell := Cell(0, 1)
  const Left: Cell := Cell(-1, 0)
  const Right: Cell := Cell(1, 0)

  /** Component-wise vector addition: the cell reached from `a` by moving `b`. */
  function Add(a: Cell, b: Cell): Cell {
    Cell(a.x + b.x, a.y + b.y)
  }

  /** The heading opposite to `d`. */
  function Reverse(d: Cell): Cell {
    Cell(-d.x, -d.y)
  }

  predicate IsDirection(d: Cell) {
    d == Up || d == Down || d == Left || d == Right
  }

  /** A cell on the board, both coordinates in [0, CellCount). */
  predicate InGrid(c: Cell) {
    0 <= c.x < CellCount && 0 <= c.y < CellCount
  }

  /** No cell occurs twice in `s`. */
  predicate Distinct(s: seq<Cell>) {
    forall i, j :: 0 <= i < j < |s| ==> s[i] != s[j]
  }

  /** Linear search of a body for a cell. The deque is passed by value, so the
      caller's body cannot be changed by the search. */
  method ElementInDeque(element: Cell, deque: seq<Cell>) returns (found: bool)
    ensures found <==> element in deque
  {
    var i := 0;
    while i < |deque|
      invariant 0 <= i <= |deque|
      invariant forall j :: 0 <= j < i ==> deque[j] != element
    {
      if deque[i] == element {
        return true;
      }
      i := i + 1;
    }
    return false;
  }

  // ---------------------------------------------------------------------
  // Counting cells: a body shorter than the board leaves a cell free.
  // ---------------------------------------------------------------------

  /** The set of cells that occur in `s`. */
  function Elements(s: seq<Cell>): set<Cell> {
    set c | c in s
  }

  /** The k-th cell of the board in row-major order. */
  function BoardCell(k: int): Cell {
    Cell(k % CellCount, k / CellCount)
  }

  /** Every cell of the board, each exactly once. */
  function Board(): seq<Cell> {
    seq(CellCount * CellCount, k => BoardCell(k))
  }

  lemma {:induction false} ElementsBound(s: seq<Cell>)
    ensures |Elements(s)| <= |s|
  {
    if s != [] {
      ElementsBound(s[1..]);
      assert Elements(s) == {s[0]} + Elements(s[1..]);
    }
  }

  lemma {:induction false} DistinctElements(s: seq<Cell>)
    requires Distinct(s)
    ensures |Elements(s)| == |s|
  {
    if s != [] {
      DistinctElements(s[1..]);
      assert Elements(s) == {s[0]} + Elements(s[1..]);
      assert s[0] !in Elements(s[1..]) by {
        forall i | 0 <= i < |s[1..]| ensures s[1..][i] != s[0] {
          assert s[1..][i] == s[i + 1];
        }
      }
    }
  }

  lemma BoardIsDistinct()
    ensures Distinct(Board())
  {
    var b := Board();
    forall i, j | 0 <= i < j < |b| ensures b[i] != b[j] {
      assert i == (i / CellCount) * CellCount + i % CellCount;
      assert j == (j / CellCount) * CellCount + j % CellCount;
    }
  }

  /** Pigeonhole: while a body is shorter than the number of cells on the
      board, some cell of the board is not in it, so rejection sampling of
      board cells can succeed. */
  lemma FreeCellExists(body: seq<Cell>)
    requires |body| < CellCount * CellCount
    ensures exists c :: InGrid(c) && c !in body
  {
    var b := Board();
    if forall c :: InGrid(c) ==> c in body {
      assert Elements(b) <= Elements(body) by {
        forall c | c in Elements(b) ensures c in Elements(body) {
          var k :| 0 <= k < |b| && b[k] == c;
          assert InGrid(BoardCell(k));
        }
      }
      BoardIsDistinct();
      DistinctElements(b);
      ElementsBound(body);
      SubsetCard(Elements(b), Elements(body));
      assert false;
    }
  }

  lemma SubsetCard(a: set<Cell>, b: set<Cell>)
    requires a <= b
    ensures |a| <= |b|
  {
    assert b == a + (b - a);
  }
}
