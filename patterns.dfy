/** Known patterns, stepped on seeded boards. A seeded board is described
    by its list of live logical cells, so one generation of it can be
    computed on the list: the next board is the board seeded with the cells
    the rule keeps alive (StepSeeded). This gives the 2 x 2 block, the
    blinker and the first generation of the hard-coded seed. */
module Patterns {
  import opened Board
  import opened Life

  /** 1 if logical cell (x, y) is in the list, else 0. */
  function InList(cells: seq<(int, int)>, x: int, y: int): (n: nat)
    ensures n <= 1 && (n == 1 <==> (x, y) in cells)
  {
    if (x, y) in cells then 1 else 0
  }

  /** Number of listed cells among the eight logical neighbours of (x, y). */
  function ListNeighbors(cells: seq<(int, int)>, x: int, y: int): (n: nat)
    ensures n <= 8
  {
    InList(cells, x - 1, y + 1) + InList(cells, x, y + 1) + InList(cells, x + 1, y + 1)
    + InList(cells, x - 1, y) + InList(cells, x + 1, y)
    + InList(cells, x - 1, y - 1) + InList(cells, x, y - 1) + InList(cells, x + 1, y - 1)
  }

  /** Board b shows exactly the listed cells: a storage cell is alive iff
      its logical coordinate is in the list. */
  ghost predicate Shows(b: seq<bool>, cells: seq<(int, int)>) {
    IsBoard(b)
    && forall ix, iy :: InStorage(ix, iy) ==> (b[Idx(ix, iy)] <==> (ix - Ghost, iy - Ghost) in cells)
  }

  /** One cell of a board that shows a list. */
  lemma ShowsAt(b: seq<bool>, cells: seq<(int, int)>, ix: int, iy: int)
    requires Shows(b, cells) && InStorage(ix, iy)
    ensures b[Idx(ix, iy)] <==> (ix - Ghost, iy - Ghost) in cells
  {
  }

  /** A seeded board shows its list: listed cells are alive, every other
      logical cell is dead, and ghost-ring cells are never listed. */
  lemma SeededShows(cells: seq<(int, int)>)
    requires ValidCells(cells)
    ensures Shows(Seeded(cells), cells)
  {
    forall ix, iy | InStorage(ix, iy)
      ensures Seeded(cells)[Idx(ix, iy)] <==> (ix - Ghost, iy - Ghost) in cells
    {
      if Interior(ix, iy) {
        SeededAt(cells, ix - Ghost, iy - Ghost);
      } else {
        SeededGhostDead(cells);
        Encode(ix, iy);
      }
    }
  }

  /** On a board that shows a list, the kernel's neighbour count is the
      number of listed neighbours: the ghost ring contributes nothing. */
  lemma ShownNeighbors(b: seq<bool>, cells: seq<(int, int)>, ix: int, iy: int)
    requires Shows(b, cells) && Interior(ix, iy)
    ensures Neighbors(b, ix, iy) == ListNeighbors(cells, ix - Ghost, iy - Ghost)
  {
    ShowsAt(b, cells, ix - 1, iy + 1);
    ShowsAt(b, cells, ix, iy + 1);
    ShowsAt(b, cells, ix + 1, iy + 1);
    ShowsAt(b, cells, ix - 1, iy);
    ShowsAt(b, cells, ix + 1, iy);
    ShowsAt(b, cells, ix - 1, iy - 1);
    ShowsAt(b, cells, ix, iy - 1);
    ShowsAt(b, cells, ix + 1, iy - 1);
  }

  /** The rule applied to the list: logical cell (x, y) is alive in the next
      generation of a board that shows the list. */
  predicate NextListed(cells: seq<(int, int)>, x: int, y: int) {
    Rule((x, y) in cells, ListNeighbors(cells, x, y))
  }

  /** Cell (ix, iy) of the next generation of a board that shows a list is
      alive exactly when the rule, applied to the list, keeps it alive. */
  lemma StepShownCell(b: seq<bool>, cells: seq<(int, int)>, ix: int, iy: int)
    requires Shows(b, cells) && InStorage(ix, iy)
    ensures Step(b)[Idx(ix, iy)]
            <==> Logical(ix - Ghost, iy - Ghost) && NextListed(cells, ix - Ghost, iy - Ghost)
  {
    Encode(ix, iy);
    StepAt(b, Idx(ix, iy));
    if Interior(ix, iy) {
      ShownNeighbors(b, cells, ix, iy);
    }
  }

  /** `after` lists exactly the logical cells the rule keeps alive when
      applied to the list `before`. */
  ghost predicate ListStep(before: seq<(int, int)>, after: seq<(int, int)>) {
    ValidCells(before) && ValidCells(after)
    && forall x, y :: Logical(x, y) ==> (NextListed(before, x, y) <==> (x, y) in after)
  }

  /** One cell of a list step: a logical cell is kept alive by the rule
      exactly when `after` lists it, and a non-logical one is never listed. */
  lemma ListStepAt(before: seq<(int, int)>, after: seq<(int, int)>, x: int, y: int)
    requires ListStep(before, after)
    ensures Logical(x, y) && NextListed(before, x, y) <==> (x, y) in after
  {
    if !Logical(x, y) {
      assert (x, y) !in after;
    }
  }

  /** Cell i of the next generation of the board seeded with `before` is
      cell i of the board seeded with `after`. */
  lemma StepSeededAt(before: seq<(int, int)>, after: seq<(int, int)>, i: int)
    requires ListStep(before, after) && 0 <= i < Size
    requires Shows(Seeded(before), before) && Shows(Seeded(after), after)
    ensures Step(Seeded(before))[i] == Seeded(after)[i]
  {
    var ix, iy := Col(i), Row(i);
    Decode(i);
    StepShownCell(Seeded(before), before, ix, iy);
    ShowsAt(Seeded(after), after, ix, iy);
    ListStepAt(before, after, ix - Ghost, iy - Ghost);
  }

  /** One generation of a seeded board is the board seeded with the cells
      the rule keeps alive. */
  lemma StepSeeded(before: seq<(int, int)>, after: seq<(int, int)>)
    requires ListStep(before, after)
    ensures Step(Seeded(before)) == Seeded(after)
  {
    SeededShows(before);
    SeededShows(after);
    forall i | 0 <= i < Size
      ensures Step(Seeded(before))[i] == Seeded(after)[i]
    {
      StepSeededAt(before, after, i);
    }
  }

  /** The 2 x 2 block with top-left logical cell (x0, y0). */
  function BlockAt(x0: int, y0: int): (cells: seq<(int, int)>)
    requires 0 <= x0 < GridN - 1 && 0 <= y0 < GridM - 1
    ensures ValidCells(cells)
  {
    [(x0, y0), (x0 + 1, y0), (x0, y0 + 1), (x0 + 1, y0 + 1)]
  }

  /** Membership in the block as arithmetic on the coordinates. */
  lemma BlockMembers(x0: int, y0: int, x: int, y: int)
    requires 0 <= x0 < GridN - 1 && 0 <= y0 < GridM - 1
    ensures (x, y) in BlockAt(x0, y0) <==> x0 <= x <= x0 + 1 && y0 <= y <= y0 + 1
  {
  }

  /** Each cell of the block has exactly 3 listed neighbours, and no cell
      outside it has 3. */
  lemma BlockNextAt(x0: int, y0: int, x: int, y: int)
    requires 0 <= x0 < GridN - 1 && 0 <= y0 < GridM - 1 && Logical(x, y)
    ensures NextListed(BlockAt(x0, y0), x, y) <==> (x, y) in BlockAt(x0, y0)
  {
    BlockMembers(x0, y0, x - 1, y + 1); BlockMembers(x0, y0, x, y + 1); BlockMembers(x0, y0, x + 1, y + 1);
    BlockMembers(x0, y0, x - 1, y); BlockMembers(x0, y0, x, y); BlockMembers(x0, y0, x + 1, y);
    BlockMembers(x0, y0, x - 1, y - 1); BlockMembers(x0, y0, x, y - 1); BlockMembers(x0, y0, x + 1, y - 1);
  }

  /** A 2 x 2 block anywhere on the board, touching the ghost ring or not,
      is unchanged by one generation, and so by any number. */
  lemma BlockIsStillLife(x0: int, y0: int, k: nat)
    requires 0 <= x0 < GridN - 1 && 0 <= y0 < GridM - 1
    ensures Step(Seeded(BlockAt(x0, y0))) == Seeded(BlockAt(x0, y0))
    ensures Generation(Seeded(BlockAt(x0, y0)), k) == Seeded(BlockAt(x0, y0))
  {
    var block := BlockAt(x0, y0);
    forall x, y | Logical(x, y)
      ensures NextListed(block, x, y) <==> (x, y) in block
    {
      BlockNextAt(x0, y0, x, y);
    }
    StepSeeded(block, block);
    StillLifeForever(Seeded(block), k);
  }

  /** The two phases of a blinker centred on logical cell (x0, y0). */
  function BlinkerVertical(x0: int, y0: int): (cells: seq<(int, int)>)
    requires 0 < x0 < GridN - 1 && 0 < y0 < GridM - 1
    ensures ValidCells(cells)
  {
    [(x0, y0 - 1), (x0, y0), (x0, y0 + 1)]
  }

  function BlinkerHorizontal(x0: int, y0: int): (cells: seq<(int, int)>)
    requires 0 < x0 < GridN - 1 && 0 < y0 < GridM - 1
    ensures ValidCells(cells)
  {
    [(x0 - 1, y0), (x0, y0), (x0 + 1, y0)]
  }

  /** Membership in either phase as arithmetic on the coordinates. */
  lemma BlinkerMembers(x0: int, y0: int, x: int, y: int)
    requires 0 < x0 < GridN - 1 && 0 < y0 < GridM - 1
    ensures (x, y) in BlinkerVertical(x0, y0) <==> x == x0 && y0 - 1 <= y <= y0 + 1
    ensures (x, y) in BlinkerHorizontal(x0, y0) <==> y == y0 && x0 - 1 <= x <= x0 + 1
  {
  }

  /** The vertical phase steps to the horizontal one, cell by cell. */
  lemma BlinkerVerticalNextAt(x0: int, y0: int, x: int, y: int)
    requires 0 < x0 < GridN - 1 && 0 < y0 < GridM - 1 && Logical(x, y)
    ensures NextListed(BlinkerVertical(x0, y0), x, y) <==> (x, y) in BlinkerHorizontal(x0, y0)
  {
    BlinkerMembers(x0, y0, x - 1, y + 1); BlinkerMembers(x0, y0, x, y + 1); BlinkerMembers(x0, y0, x + 1, y + 1);
    BlinkerMembers(x0, y0, x - 1, y); BlinkerMembers(x0, y0, x, y); BlinkerMembers(x0, y0, x + 1, y);
    BlinkerMembers(x0, y0, x - 1, y - 1); BlinkerMembers(x0, y0, x, y - 1); BlinkerMembers(x0, y0, x + 1, y - 1);
  }

  /** The horizontal phase steps to the vertical one, cell by cell. */
  lemma BlinkerHorizontalNextAt(x0: int, y0: int, x: int, y: int)
    requires 0 < x0 < GridN - 1 && 0 < y0 < GridM - 1 && Logical(x, y)
    ensures NextListed(BlinkerHorizontal(x0, y0), x, y) <==> (x, y) in BlinkerVertical(x0, y0)
  {
    BlinkerMembers(x0, y0, x - 1, y + 1); BlinkerMembers(x0, y0, x, y + 1); BlinkerMembers(x0, y0, x + 1, y + 1);
    BlinkerMembers(x0, y0, x - 1, y); BlinkerMembers(x0, y0, x, y); BlinkerMembers(x0, y0, x + 1, y);
    BlinkerMembers(x0, y0, x - 1, y - 1); BlinkerMembers(x0, y0, x, y - 1); BlinkerMembers(x0, y0, x + 1, y - 1);
  }

  /** A blinker whose two phases both fit on the board (its centre is not on
      the board's edge) turns horizontal after one step and vertical again
      after the next, so it is back after every even number of
      generations. With (x0, y0) = (1, 1) this is the vertical blinker on
      logical cells (1, 0), (1, 1), (1, 2), which touches the ghost ring. */
  lemma BlinkerOscillates(x0: int, y0: int, k: nat)
    requires 0 < x0 < GridN - 1 && 0 < y0 < GridM - 1
    ensures Step(Seeded(BlinkerVertical(x0, y0))) == Seeded(BlinkerHorizontal(x0, y0))
    ensures Step(Seeded(BlinkerHorizontal(x0, y0))) == Seeded(BlinkerVertical(x0, y0))
    ensures Generation(Seeded(BlinkerVertical(x0, y0)), 2 * k) == Seeded(BlinkerVertical(x0, y0))
  {
    var v, h := BlinkerVertical(x0, y0), BlinkerHorizontal(x0, y0);
    forall x, y | Logical(x, y)
      ensures NextListed(v, x, y) <==> (x, y) in h
    {
      BlinkerVerticalNextAt(x0, y0, x, y);
    }
    StepSeeded(v, h);
    forall x, y | Logical(x, y)
      ensures NextListed(h, x, y) <==> (x, y) in v
    {
      BlinkerHorizontalNextAt(x0, y0, x, y);
    }
    StepSeeded(h, v);
    OscillatorPeriodTwo(Seeded(v), k);
  }

  /** A vertical line of three on the left edge, centred on (0, y0), and the
      two cells it leaves after one generation. */
  function EdgeLine(y0: int): (cells: seq<(int, int)>)
    requires 0 < y0 < GridM - 1
    ensures ValidCells(cells)
  {
    [(0, y0 - 1), (0, y0), (0, y0 + 1)]
  }

  function EdgePair(y0: int): (cells: seq<(int, int)>)
    requires 0 < y0 < GridM - 1
    ensures ValidCells(cells)
  {
    [(0, y0), (1, y0)]
  }

  /** Membership in the edge line and the pair as arithmetic on the coordinates. */
  lemma EdgeMembers(y0: int, x: int, y: int)
    requires 0 < y0 < GridM - 1
    ensures (x, y) in EdgeLine(y0) <==> x == 0 && y0 - 1 <= y <= y0 + 1
    ensures (x, y) in EdgePair(y0) <==> y == y0 && 0 <= x <= 1
  {
  }

  /** The edge line steps to the pair, cell by cell. */
  lemma EdgeLineNextAt(y0: int, x: int, y: int)
    requires 0 < y0 < GridM - 1 && Logical(x, y)
    ensures NextListed(EdgeLine(y0), x, y) <==> (x, y) in EdgePair(y0)
  {
    EdgeMembers(y0, x - 1, y + 1); EdgeMembers(y0, x, y + 1); EdgeMembers(y0, x + 1, y + 1);
    EdgeMembers(y0, x - 1, y); EdgeMembers(y0, x, y); EdgeMembers(y0, x + 1, y);
    EdgeMembers(y0, x - 1, y - 1); EdgeMembers(y0, x, y - 1); EdgeMembers(y0, x + 1, y - 1);
  }

  /** The pair steps to nothing, cell by cell. */
  lemma EdgePairNextAt(y0: int, x: int, y: int)
    requires 0 < y0 < GridM - 1 && Logical(x, y)
    ensures !NextListed(EdgePair(y0), x, y)
  {
    EdgeMembers(y0, x - 1, y + 1); EdgeMembers(y0, x, y + 1); EdgeMembers(y0, x + 1, y + 1);
    EdgeMembers(y0, x - 1, y); EdgeMembers(y0, x, y); EdgeMembers(y0, x + 1, y);
    EdgeMembers(y0, x - 1, y - 1); EdgeMembers(y0, x, y - 1); EdgeMembers(y0, x + 1, y - 1);
  }

  /** A board whose second generation is all dead stays all dead from
      then on. */
  lemma DeadAfterTwo(b: seq<bool>, k: nat)
    requires IsBoard(b) && AllDead(Step(Step(b)))
    ensures k >= 2 ==> AllDead(Generation(b, k))
  {
    if k >= 2 {
      assert Generation(b, 1) == Step(b);
      assert Generation(b, 2) == Step(Step(b));
      AllDeadForever(Generation(b, 2), k - 2);
      GenerationAdd(b, 2, k - 2);
    }
  }

  /** The two cells left by the edge line have one neighbour each, so the
      next generation is all dead. */
  lemma EdgePairDies(y0: int)
    requires 0 < y0 < GridM - 1
    ensures AllDead(Step(Seeded(EdgePair(y0))))
  {
    var pair := EdgePair(y0);
    forall x, y | Logical(x, y)
      ensures NextListed(pair, x, y) <==> (x, y) in []
    {
      EdgePairNextAt(y0, x, y);
    }
    StepSeeded(pair, []);
  }

  /** A line of three on the board's edge is not a blinker: the ghost column
      beside it is never born, so the line shrinks to two cells after one
      generation and the board is all dead from the second generation on. */
  lemma EdgeLineDies(y0: int, k: nat)
    requires 0 < y0 < GridM - 1
    ensures Step(Seeded(EdgeLine(y0))) == Seeded(EdgePair(y0))
    ensures k >= 2 ==> AllDead(Generation(Seeded(EdgeLine(y0)), k))
  {
    var line, pair := EdgeLine(y0), EdgePair(y0);
    forall x, y | Logical(x, y)
      ensures NextListed(line, x, y) <==> (x, y) in pair
    {
      EdgeLineNextAt(y0, x, y);
    }
    StepSeeded(line, pair);
    EdgePairDies(y0);
    DeadAfterTwo(Seeded(line), k);
  }


  /** The cells alive one generation after the hard-coded seed, the board
      printed as step 1: the five-cell cluster loses (5, 5) and (6, 5) and
      gains (4, 5) and (6, 4), and the isolated cell at (9, 9) dies. */
  const InitialSuccessor: seq<(int, int)> := [(4, 5), (5, 4), (5, 6), (6, 4), (6, 6)]

  /** Membership in the seed and its successor as arithmetic on the coordinates. */
  lemma InitialMembers(x: int, y: int)
    ensures (x, y) in InitialCells <==>
            (x == 5 && 4 <= y <= 6) || (x == 6 && 5 <= y <= 6) || (x == 9 && y == 9)
    ensures (x, y) in InitialSuccessor <==>
            (x == 4 && y == 5) || (x == 5 && (y == 4 || y == 6)) || (x == 6 && (y == 4 || y == 6))
  {
  }

  /** Cell (x, y) is alive after one generation of the seed iff the
      successor lists it. */
  lemma InitialNextAt(x: int, y: int)
    requires Logical(x, y)
    ensures NextListed(InitialCells, x, y) <==> (x, y) in InitialSuccessor
  {
    InitialMembers(x - 1, y + 1); InitialMembers(x, y + 1); InitialMembers(x + 1, y + 1);
    InitialMembers(x - 1, y); InitialMembers(x, y); InitialMembers(x + 1, y);
    InitialMembers(x - 1, y - 1); InitialMembers(x, y - 1); InitialMembers(x + 1, y - 1);
  }

  /** The rule, applied to the seed's list, keeps alive exactly the
      successor's cells. */
  lemma InitialNext()
    ensures forall x, y :: Logical(x, y) ==> (NextListed(InitialCells, x, y) <==> (x, y) in InitialSuccessor)
  {
    forall x, y | Logical(x, y)
      ensures NextListed(InitialCells, x, y) <==> (x, y) in InitialSuccessor
    {
      InitialNextAt(x, y);
    }
  }

  /** The seed and its successor are lists of logical cells. */
  lemma InitialValid()
    ensures ValidCells(InitialCells) && ValidCells(InitialSuccessor)
  {
  }

  /** One generation of the hard-coded seed (the board printed as step 1). */
  lemma InitialFirstGeneration()
    ensures Step(Seeded(InitialCells)) == Seeded(InitialSuccessor)
  {
    InitialNext();
    InitialValid();
    StepSeeded(InitialCells, InitialSuccessor);
  }
}
