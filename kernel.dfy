/** The step kernel. Each work-item of the data-parallel launch handles one
    storage coordinate: an interior cell counts its eight neighbours in the
    read-only current buffer and writes its next state into the next
    buffer; a ghost-ring coordinate does nothing. No work-item reads the
    next buffer, so the work-items can run in any order. Here they run as a
    sequential nested loop over the whole launch range. */
module Kernel {
  import opened Board
  import opened Life

  /** The next buffer after one work-item, for linear index i. */
  function ApplyItem(cur: seq<bool>, next: seq<bool>, i: int): (r: seq<bool>)
    requires IsBoard(cur) && IsBoard(next) && 0 <= i < Size
    ensures IsBoard(r)
    ensures forall j :: 0 <= j < Size && j != i ==> r[j] == next[j]
    ensures r[i] == if OnRing(i) then next[i] else Step(cur)[i]
  {
    StepCellsAt(cur, Size, i);
    if OnRing(i) then next else next[i := NextAt(cur, i)]
  }

  /** A schedule: a sequence of work-items, each a linear index. */
  predicate IsSchedule(order: seq<int>) {
    forall k :: 0 <= k < |order| ==> 0 <= order[k] < Size
  }

  /** The next buffer after the work-items of `order` ran one after another. */
  function ApplyItems(cur: seq<bool>, next: seq<bool>, order: seq<int>): (r: seq<bool>)
    requires IsBoard(cur) && IsBoard(next) && IsSchedule(order)
    ensures IsBoard(r)
    decreases |order|
  {
    if order == [] then next
    else ApplyItems(cur, ApplyItem(cur, next, order[0]), order[1..])
  }

  /** After any schedule, an interior cell the schedule visits holds its next
      state, and every other cell holds what the next buffer held before. */
  lemma {:induction false} ApplyItemsAt(cur: seq<bool>, next: seq<bool>, order: seq<int>, i: int)
    requires IsBoard(cur) && IsBoard(next) && IsSchedule(order) && 0 <= i < Size
    ensures ApplyItems(cur, next, order)[i]
            == if !OnRing(i) && i in order then Step(cur)[i] else next[i]
    decreases |order|
  {
    if order != [] {
      var next' := ApplyItem(cur, next, order[0]);
      ApplyItemsAt(cur, next', order[1..], i);
      assert i in order <==> i == order[0] || i in order[1..];
    }
  }

  /** Order independence: two schedules that visit the same interior cells,
      in whatever order and however often, leave the same next buffer. */
  lemma ScheduleOrderIrrelevant(cur: seq<bool>, next: seq<bool>, o1: seq<int>, o2: seq<int>)
    requires IsBoard(cur) && IsBoard(next) && IsSchedule(o1) && IsSchedule(o2)
    requires forall i :: 0 <= i < Size && !OnRing(i) ==> (i in o1 <==> i in o2)
    ensures ApplyItems(cur, next, o1) == ApplyItems(cur, next, o2)
  {
    forall i | 0 <= i < Size
      ensures ApplyItems(cur, next, o1)[i] == ApplyItems(cur, next, o2)[i]
    {
      ApplyItemsAt(cur, next, o1, i);
      ApplyItemsAt(cur, next, o2, i);
    }
  }

  /** Any schedule that visits every interior cell, applied to a next buffer
      whose ghost ring is dead, produces exactly Step(cur). */
  lemma AnyScheduleComputesStep(cur: seq<bool>, next: seq<bool>, order: seq<int>)
    requires IsBoard(cur) && IsBoard(next) && IsSchedule(order) && GhostDead(next)
    requires forall i :: 0 <= i < Size && !OnRing(i) ==> i in order
    ensures ApplyItems(cur, next, order) == Step(cur)
  {
    forall i | 0 <= i < Size
      ensures ApplyItems(cur, next, order)[i] == Step(cur)[i]
    {
      ApplyItemsAt(cur, next, order, i);
      StepAt(cur, i);
    }
  }

  /** The first half of a work-item: the eight neighbour reads of interior
      cell (ix, iy), each live neighbour adding one to the counter. */
  method CountNeighbors(cur: array<bool>, ix: int, iy: int) returns (neighbors: int)
    requires cur.Length == Size && Interior(ix, iy)
    ensures neighbors == Neighbors(cur[..], ix, iy)
  {
    neighbors := 0;
    neighbors := neighbors + (if cur[Idx(ix - 1, iy + 1)] then 1 else 0);
    neighbors := neighbors + (if cur[Idx(ix, iy + 1)] then 1 else 0);
    neighbors := neighbors + (if cur[Idx(ix + 1, iy + 1)] then 1 else 0);
    neighbors := neighbors + (if cur[Idx(ix - 1, iy)] then 1 else 0);
    neighbors := neighbors + (if cur[Idx(ix + 1, iy)] then 1 else 0);
    neighbors := neighbors + (if cur[Idx(ix - 1, iy - 1)] then 1 else 0);
    neighbors := neighbors + (if cur[Idx(ix, iy - 1)] then 1 else 0);
    neighbors := neighbors + (if cur[Idx(ix + 1, iy - 1)] then 1 else 0);
  }

  /** One work-item at storage coordinate (ix, iy): the body of the kernel.
      A ghost-ring coordinate writes nothing; an interior one writes the
      three-branch rule's result into its own slot of `next` only. */
  method CellKernel(cur: array<bool>, next: array<bool>, ix: int, iy: int)
    requires cur.Length == Size && next.Length == Size && cur != next
    requires InStorage(ix, iy)
    modifies next
    ensures next[..] == ApplyItem(cur[..], old(next[..]), Idx(ix, iy))
  {
    Encode(ix, iy);
    if ix > 0 && iy > 0 && ix < Width - 1 && iy < Height - 1 {
      var neighbors := CountNeighbors(cur, ix, iy);
      if neighbors < 2 || neighbors > 3 {
        next[Idx(ix, iy)] := false;
      } else if neighbors == 3 {
        next[Idx(ix, iy)] := true;
      } else {
        next[Idx(ix, iy)] := cur[Idx(ix, iy)];
      }
      assert next[..] == old(next[..])[Idx(ix, iy) := NextAt(cur[..], Idx(ix, iy))];
    }
  }

  /** Work-item (ix, iy) has run once the loop is at (x, y): the launch range
      is walked with ix outermost. */
  predicate Visited(ix: int, iy: int, x: int, y: int) {
    ix < x || (ix == x && iy < y)
  }

  /** One full launch over the Width x Height range: the interior of `next`
      receives Step(cur), the ghost ring of `next` keeps its old value and
      `cur` is not written. */
  method StepBoard(cur: array<bool>, next: array<bool>)
    requires cur.Length == Size && next.Length == Size && cur != next
    modifies next
    ensures forall i :: 0 <= i < Size && !OnRing(i) ==> next[i] == Step(cur[..])[i]
    ensures forall i :: 0 <= i < Size && OnRing(i) ==> next[i] == old(next[i])
    ensures GhostDead(old(next[..])) ==> next[..] == Step(cur[..])
  {
    var ix := 0;
    while ix < Width
      invariant 0 <= ix <= Width
      invariant forall i :: 0 <= i < Size ==>
                  next[i] == if Visited(Col(i), Row(i), ix, 0) && !OnRing(i)
                             then Step(cur[..])[i] else old(next[i])
    {
      var iy := 0;
      while iy < Height
        invariant 0 <= iy <= Height
        invariant forall i :: 0 <= i < Size ==>
                    next[i] == if Visited(Col(i), Row(i), ix, iy) && !OnRing(i)
                               then Step(cur[..])[i] else old(next[i])
      {
        CellKernel(cur, next, ix, iy);
        iy := iy + 1;
      }
      ix := ix + 1;
    }
    if GhostDead(old(next[..])) {
      forall i | 0 <= i < Size
        ensures next[i] == Step(cur[..])[i]
      {
        StepAt(cur[..], i);
      }
    }
  }
}
