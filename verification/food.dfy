/** The food: one board cell, placed by rejection sampling of random cells
    until one is found that the snake does not cover. */
module FoodEntity {
  import opened Grid
  import opened Randomness

  /** The cell GenerateRandomCell builds from the answers number `at` and
      `at + 1` of the generator, each asked for a value in [0, CellCount - 1]. */
  function CellDrawnAt(gen: (nat, int, int) -> int, at: nat): Cell {
    Cell(gen(at, 0, CellCount - 1), gen(at + 1, 0, CellCount - 1))
  }

  /** The j-th cell generated once `from` answers have been consumed. */
  function NthCell(gen: (nat, int, int) -> int, from: nat, j: nat): Cell {
    CellDrawnAt(gen, from + 2 * j)
  }

  /** Some cell generated from position `from` on avoids `body`: the
      rejection loop started there returns. */
  ghost predicate EventuallyFree(gen: (nat, int, int) -> int, from: nat, body: seq<Cell>) {
    exists j: nat :: NthCell(gen, from, j) !in body
  }

  /** The first j cells generated from position `from` on are all in `body`. */
  ghost predicate AllRejected(gen: (nat, int, int) -> int, from: nat, j: nat, body: seq<Cell>) {
    forall i :: 0 <= i < j ==> NthCell(gen, from, i) in body
  }

  lemma RejectOneMore(gen: (nat, int, int) -> int, from: nat, j: nat, body: seq<Cell>)
    requires AllRejected(gen, from, j, body) && NthCell(gen, from, j) in body
    ensures AllRejected(gen, from, j + 1, body)
  {
  }

  ghost predicate GeneratedLater(gen: (nat, int, int) -> int, from: nat, c: Cell) {
    exists j: nat :: NthCell(gen, from, j) == c
  }

  /** A usable source: honest, and fair in that every board cell is
      generated again after any point. */
  ghost predicate Fair(gen: (nat, int, int) -> int) {
    && Honest(gen)
    && forall c, from: nat :: InGrid(c) ==> GeneratedLater(gen, from, c)
  }

  /** With a fair source, the rejection loop returns whenever the body leaves
      a board cell free. */
  lemma FairFindsFree(gen: (nat, int, int) -> int, from: nat, body: seq<Cell>)
    requires Fair(gen)
    requires |body| < CellCount * CellCount
    ensures EventuallyFree(gen, from, body)
  {
    FreeCellExists(body);
    var c :| InGrid(c) && c !in body;
    assert GeneratedLater(gen, from, c);
    var j: nat :| NthCell(gen, from, j) == c;
  }

  class Food {
    var position: Cell

    /** Starts at the initialiser's cell (5, 6), then moves to a random cell
        that `snakeBody` does not cover. */
    constructor (snakeBody: seq<Cell>, rng: RandomSource)
      requires Honest(rng.gen) && EventuallyFree(rng.gen, rng.drawn, snakeBody)
      modifies rng
      ensures InGrid(position) && position !in snakeBody
    {
      position := Cell(5, 6);
      new;
      ghost var rejected;
      position, rejected := GenRandomPos(snakeBody, rng);
    }

    method GenerateRandomCell(rng: RandomSource) returns (c: Cell)
      requires Honest(rng.gen)
      modifies rng
      ensures rng.drawn == old(rng.drawn) + 2
      ensures c == CellDrawnAt(rng.gen, old(rng.drawn)) && InGrid(c)
    {
      var x := rng.GetRandomValue(0, CellCount - 1);
      var y := rng.GetRandomValue(0, CellCount - 1);
      c := Cell(x, y);
    }

    /** Draws cells until one is not in `snakeBody`; the result is the first
        such cell the stream yields, after `j` rejected ones. */
    method GenRandomPos(snakeBody: seq<Cell>, rng: RandomSource) returns (p: Cell, ghost j: nat)
      requires Honest(rng.gen) && EventuallyFree(rng.gen, rng.drawn, snakeBody)
      modifies rng
      ensures InGrid(p) && p !in snakeBody
      ensures rng.drawn == old(rng.drawn) + 2 * (j + 1)
      ensures p == NthCell(rng.gen, old(rng.drawn), j)
      ensures AllRejected(rng.gen, old(rng.drawn), j, snakeBody)
    {
      ghost var from := rng.drawn;
      ghost var k: nat :| NthCell(rng.gen, from, k) !in snakeBody;
      j := 0;
      p := GenerateRandomCell(rng);
      var taken := ElementInDeque(p, snakeBody);
      while taken
        invariant j <= k
        invariant rng.drawn == from + 2 * (j + 1)
        invariant p == NthCell(rng.gen, from, j)
        invariant taken <==> p in snakeBody
        invariant AllRejected(rng.gen, from, j, snakeBody)
        decreases k - j
      {
        RejectOneMore(rng.gen, from, j, snakeBody);
        ghost var at := rng.drawn;
        p := GenerateRandomCell(rng);
        j := j + 1;
        assert p == NthCell(rng.gen, from, j) by {
          assert from + 2 * j == at;
        }
        taken := ElementInDeque(p, snakeBody);
      }
    }
  }
}
