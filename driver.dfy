/** The driver: two zero-initialised buffers, the seed marked into the
    current one, then `iterations` rounds of step, print and pointer swap.
    The printed boards are returned as frames instead of being written out. */
module Driver {
  import opened Board
  import opened Life
  import opened Kernel
  import opened Renderer

  /** The number of rounds a loop `for (i = 0; i < iterations; i++)` runs. */
  function Rounds(iterations: int): (n: nat)
    ensures iterations <= 0 ==> n == 0
    ensures iterations > 0 ==> n == iterations
  {
    if iterations > 0 then iterations else 0
  }

  /** Marks each seed cell alive in a zero-initialised buffer. */
  method SeedBoard(board: array<bool>, cells: seq<(int, int)>)
    requires board.Length == Size && board[..] == Empty() && ValidCells(cells)
    modifies board
    ensures board[..] == Seeded(cells)
  {
    var c := 0;
    while c < |cells|
      invariant 0 <= c <= |cells|
      invariant ValidCells(cells[..c])
      invariant board[..] == Seeded(cells[..c])
    {
      assert cells[..c + 1][..c] == cells[..c];
      assert cells[c] in cells;
      board[Idx(cells[c].0 + Ghost, cells[c].1 + Ghost)] := true;
      c := c + 1;
    }
    assert cells[..|cells|] == cells;
  }

  /** The body of one round before the swap: step the current buffer into
      the next one and print the next one. Given the current buffer holds
      generation i of the seed, the next buffer then holds generation i + 1
      and keeps a dead ghost ring. */
  method StepAndPrint(cur: array<bool>, next: array<bool>, ghost seed: seq<bool>, ghost i: nat)
      returns (frame: seq<string>)
    requires cur.Length == Size && next.Length == Size && cur != next
    requires IsBoard(seed) && GhostDead(seed)
    requires cur[..] == Generation(seed, i) && GhostDead(next[..])
    modifies next
    ensures next[..] == Generation(seed, i + 1) && GhostDead(next[..])
    ensures frame == Render(Generation(seed, i + 1))
  {
    StepBoard(cur, next);
    GenerationGhostDead(seed, i + 1);
    frame := PrintBoard(next);
  }

  /** Runs the simulation from the given seed. Frame k is the rendering of
      generation k, from generation 0 (the seed) up to the last round;
      `final` is the buffer the current pointer refers to at the end. */
  method Simulate(cells: seq<(int, int)>, iterations: int)
      returns (frames: seq<seq<string>>, final: seq<bool>)
    requires ValidCells(cells)
    ensures |frames| == Rounds(iterations) + 1
    ensures forall k :: 0 <= k < |frames| ==> frames[k] == Render(Generation(Seeded(cells), k))
    ensures final == Generation(Seeded(cells), Rounds(iterations))
  {
    var board := new bool[Size](_ => false);
    var boardNext := new bool[Size](_ => false);

    assert board[..] == Empty();
    SeedBoard(board, cells);
    ghost var seed := Seeded(cells);
    SeededGhostDead(cells);

    var boardPtr, boardNextPtr := board, boardNext;
    var frame := PrintBoard(boardPtr);
    frames := [frame];

    var i := 0;
    while i < iterations
      invariant 0 <= i <= Rounds(iterations)
      invariant boardPtr != boardNextPtr
      invariant {boardPtr, boardNextPtr} == {board, boardNext}
      invariant boardPtr.Length == Size && boardNextPtr.Length == Size
      invariant boardPtr[..] == Generation(seed, i)
      invariant GhostDead(boardNextPtr[..])
      invariant |frames| == i + 1
      invariant forall k :: 0 <= k <= i ==> frames[k] == Render(Generation(seed, k))
    {
      GenerationGhostDead(seed, i);
      frame := StepAndPrint(boardPtr, boardNextPtr, seed, i);
      frames := frames + [frame];
      boardPtr, boardNextPtr := boardNextPtr, boardPtr;
      i := i + 1;
    }
    final := boardPtr[..];
  }
}
