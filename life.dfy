/** The Game of Life transition as pure functions over a whole buffer:
    the neighbour count of an interior cell, the three-branch rule, one
    generation (Step) and k generations (Generation). */
module Life {
  import opened Board

  /** 1 if storage cell (ix, iy) is alive, else 0 (a bool added to an int). */
  function Live(b: seq<bool>, ix: int, iy: int): (n: nat)
    requires IsBoard(b) && InStorage(ix, iy)
    ensures n <= 1 && (n == 1 <==> b[Idx(ix, iy)])
  {
    if b[Idx(ix, iy)] then 1 else 0
  }

  /** The kernel's neighbour count: the eight reads, in the kernel's order. */
  function Neighbors(b: seq<bool>, ix: int, iy: int): (n: nat)
    requires IsBoard(b) && Interior(ix, iy)
    ensures n <= 8
  {
    Live(b, ix - 1, iy + 1) + Live(b, ix, iy + 1) + Live(b, ix + 1, iy + 1)
    + Live(b, ix - 1, iy) + Live(b, ix + 1, iy)
    + Live(b, ix - 1, iy - 1) + Live(b, ix, iy - 1) + Live(b, ix + 1, iy - 1)
  }

  /** Reference count: live cells of row iy from column x0 up to, not
      including, column x1. */
  function RowCount(b: seq<bool>, iy: int, x0: int, x1: int): nat
    requires IsBoard(b) && 0 <= x0 <= x1 <= Width && 0 <= iy < Height
    decreases x1 - x0
  {
    if x0 == x1 then 0 else Live(b, x0, iy) + RowCount(b, iy, x0 + 1, x1)
  }

  /** Reference count: live cells of the 3 x 3 window centred on (ix, iy). */
  function WindowCount(b: seq<bool>, ix: int, iy: int): nat
    requires IsBoard(b) && Interior(ix, iy)
  {
    RowCount(b, iy - 1, ix - 1, ix + 2) + RowCount(b, iy, ix - 1, ix + 2)
    + RowCount(b, iy + 1, ix - 1, ix + 2)
  }

  lemma {:induction false} RowCountThree(b: seq<bool>, iy: int, x: int)
    requires IsBoard(b) && 0 <= x && x + 3 <= Width && 0 <= iy < Height
    ensures RowCount(b, iy, x, x + 3) == Live(b, x, iy) + Live(b, x + 1, iy) + Live(b, x + 2, iy)
  {
    assert RowCount(b, iy, x + 3, x + 3) == 0;
    assert RowCount(b, iy, x + 2, x + 3) == Live(b, x + 2, iy);
    assert RowCount(b, iy, x + 1, x + 3) == Live(b, x + 1, iy) + Live(b, x + 2, iy);
  }

  /** The neighbour count is the number of live cells in the 3 x 3 window
      around the cell, the cell itself excluded. */
  lemma NeighborsIsWindowWithoutCentre(b: seq<bool>, ix: int, iy: int)
    requires IsBoard(b) && Interior(ix, iy)
    ensures Neighbors(b, ix, iy) == WindowCount(b, ix, iy) - Live(b, ix, iy)
  {
    RowCountThree(b, iy - 1, ix - 1);
    RowCountThree(b, iy, ix - 1);
    RowCountThree(b, iy + 1, ix - 1);
  }

  /** The three-branch rule: death below 2 or above 3 neighbours, life at
      exactly 3, no change at exactly 2. The three branches are the standard
      B3/S23 rule: a dead cell is born with exactly 3 neighbours, a live cell
      survives with 2 or 3. */
  function Rule(alive: bool, neighbors: int): (r: bool)
    ensures r <==> neighbors == 3 || (alive && neighbors == 2)
    ensures !alive ==> (r <==> neighbors == 3)
    ensures alive ==> (r <==> neighbors == 2 || neighbors == 3)
  {
    if neighbors < 2 || neighbors > 3 then false
    else if neighbors == 3 then true
    else alive
  }

  /** Next state of interior storage cell (ix, iy). */
  function NextCell(b: seq<bool>, ix: int, iy: int): bool
    requires IsBoard(b) && Interior(ix, iy)
  {
    Rule(b[Idx(ix, iy)], Neighbors(b, ix, iy))
  }

  /** Next state of the cell at linear index i as the next buffer receives
      it: interior cells follow the rule, ghost-ring cells stay dead. */
  function NextAt(b: seq<bool>, i: int): bool
    requires IsBoard(b)
  {
    if OnRing(i) then false else NextCell(b, Col(i), Row(i))
  }

  /** Next states of the first n cells of the buffer, in index order. */
  function StepCells(b: seq<bool>, n: nat): (r: seq<bool>)
    requires IsBoard(b) && n <= Size
    ensures |r| == n
  {
    if n == 0 then [] else StepCells(b, n - 1) + [NextAt(b, n - 1)]
  }

  /** Cell i of the prefix is the next state of cell i. */
  lemma {:induction false} StepCellsAt(b: seq<bool>, n: nat, i: int)
    requires IsBoard(b) && 0 <= i < n <= Size
    ensures StepCells(b, n)[i] == NextAt(b, i)
  {
    var prefix := StepCells(b, n - 1);
    assert StepCells(b, n) == prefix + [NextAt(b, n - 1)];
    if i < n - 1 {
      StepCellsAt(b, n - 1, i);
      assert (prefix + [NextAt(b, n - 1)])[i] == prefix[i];
    }
  }

  /** One generation: the whole next buffer. */
  function Step(b: seq<bool>): (r: seq<bool>)
    requires IsBoard(b)
    ensures IsBoard(r)
  {
    StepCells(b, Size)
  }

  /** Cell i of the next generation: dead on the ghost ring, the rule applied
      to the cell and its neighbour count inside it. */
  lemma StepAt(b: seq<bool>, i: int)
    requires IsBoard(b) && 0 <= i < Size
    ensures OnRing(i) ==> !Step(b)[i]
    ensures !OnRing(i) ==> Step(b)[i] == Rule(b[i], Neighbors(b, Col(i), Row(i)))
  {
    StepCellsAt(b, Size, i);
    Decode(i);
  }

  /** Step leaves every ghost-ring cell dead, whatever the input's ring. */
  lemma StepGhostDead(b: seq<bool>)
    requires IsBoard(b)
    ensures GhostDead(Step(b))
  {
    forall i | 0 <= i < Size && OnRing(i)
      ensures !Step(b)[i]
    {
      StepAt(b, i);
    }
  }

  /** Each interior cell of Step(b) obeys the three-branch rule on its own
      neighbour count and its own current state. */
  lemma TransitionRule(b: seq<bool>, ix: int, iy: int)
    requires IsBoard(b) && Interior(ix, iy)
    ensures Neighbors(b, ix, iy) < 2 || Neighbors(b, ix, iy) > 3 ==> !Step(b)[Idx(ix, iy)]
    ensures Neighbors(b, ix, iy) == 3 ==> Step(b)[Idx(ix, iy)]
    ensures Neighbors(b, ix, iy) == 2 ==> Step(b)[Idx(ix, iy)] == b[Idx(ix, iy)]
  {
    StepAt(b, Idx(ix, iy));
  }

  /** The board after k generations. */
  function Generation(b: seq<bool>, k: nat): (r: seq<bool>)
    requires IsBoard(b)
    ensures IsBoard(r)
  {
    if k == 0 then b else Step(Generation(b, k - 1))
  }

  /** A board with a dead ghost ring keeps it for any number of generations. */
  lemma GenerationGhostDead(b: seq<bool>, k: nat)
    requires IsBoard(b) && GhostDead(b)
    ensures GhostDead(Generation(b, k))
  {
    if k > 0 {
      StepGhostDead(Generation(b, k - 1));
    }
  }

  /** Running j generations and then k more is running j + k generations. */
  lemma {:induction false} GenerationAdd(b: seq<bool>, j: nat, k: nat)
    requires IsBoard(b)
    ensures Generation(Generation(b, j), k) == Generation(b, j + k)
  {
    if k > 0 {
      GenerationAdd(b, j, k - 1);
    }
  }

  /** An all-dead board steps to an all-dead board. */
  lemma AllDeadStepsToAllDead(b: seq<bool>)
    requires IsBoard(b) && AllDead(b)
    ensures AllDead(Step(b))
  {
    forall i | 0 <= i < Size
      ensures !Step(b)[i]
    {
      StepAt(b, i);
    }
  }

  /** An all-dead board stays all-dead for any number of generations. */
  lemma {:induction false} AllDeadForever(b: seq<bool>, k: nat)
    requires IsBoard(b) && AllDead(b)
    ensures AllDead(Generation(b, k))
  {
    if k > 0 {
      AllDeadForever(b, k - 1);
      AllDeadStepsToAllDead(Generation(b, k - 1));
    }
  }

  /** A cell none of whose eight neighbours is alive is dead in the next
      generation, whatever its own state (underpopulation). */
  lemma IsolatedCellDies(b: seq<bool>, ix: int, iy: int)
    requires IsBoard(b) && Interior(ix, iy)
    requires forall jx, jy ::
               ix - 1 <= jx <= ix + 1 && iy - 1 <= jy <= iy + 1 && (jx, jy) != (ix, iy)
               ==> !b[Idx(jx, jy)]
    ensures !Step(b)[Idx(ix, iy)]
  {
    assert Neighbors(b, ix, iy) == 0 by {
      assert !b[Idx(ix - 1, iy + 1)] && !b[Idx(ix, iy + 1)] && !b[Idx(ix + 1, iy + 1)];
      assert !b[Idx(ix - 1, iy)] && !b[Idx(ix + 1, iy)];
      assert !b[Idx(ix - 1, iy - 1)] && !b[Idx(ix, iy - 1)] && !b[Idx(ix + 1, iy - 1)];
    }
    TransitionRule(b, ix, iy);
  }

  /** A still life (a board Step leaves unchanged) stays unchanged for any
      number of generations. */
  lemma {:induction false} StillLifeForever(b: seq<bool>, k: nat)
    requires IsBoard(b) && Step(b) == b
    ensures Generation(b, k) == b
  {
    if k > 0 {
      StillLifeForever(b, k - 1);
    }
  }

  /** A period-2 oscillator returns to itself after every even number of
      generations. */
  lemma {:induction false} OscillatorPeriodTwo(b: seq<bool>, k: nat)
    requires IsBoard(b) && Step(Step(b)) == b
    ensures Generation(b, 2 * k) == b
  {
    if k > 0 {
      OscillatorPeriodTwo(b, k - 1);
      assert Generation(b, 2 * k) == Step(Step(Generation(b, 2 * (k - 1))));
    }
  }
}
