/** Layout of the ghost-padded board.
    The logical GridN x GridM board is stored in a flat boolean buffer that has
    a ring of Ghost dead cells around it, so that every neighbour of a logical
    cell is a valid storage position. Storage cell (ix, iy) lives at linear
    index iy * Width + ix, and logical cell (x, y) is storage cell
    (x + Ghost, y + Ghost). */
module Board {

  /** Logical width and height of the board, and the ghost ring's width. */
  const GridN: nat := 10
  const GridM: nat := 10
  const Ghost: nat := 1
  /** Storage extent along x (GridN + 2 * Ghost), which is also the row stride. */
  const Width: nat := 12
  /** Storage extent along y (GridM + 2 * Ghost). */
  const Height: nat := 12
  /** Number of cells in one buffer, ghost ring included (Width * Height). */
  const Size: nat := 144

  /** The storage extents are the logical extents plus the ghost ring on both
      sides; the board is square, so one row stride serves both the renderer
      and the kernel. */
  lemma LayoutConstants()
    ensures Width == GridN + 2 * Ghost && Height == GridM + 2 * Ghost
    ensures Size == Width * Height && Width == Height
  {
  }

  /** A storage coordinate, ghost ring included. */
  predicate InStorage(ix: int, iy: int) {
    0 <= ix < Width && 0 <= iy < Height
  }

  /** The guard of the kernel: the storage coordinate is not on the ghost ring. */
  predicate Interior(ix: int, iy: int) {
    ix > 0 && iy > 0 && ix < Width - 1 && iy < Height - 1
  }

  /** A logical coordinate of the visible board. */
  predicate Logical(x: int, y: int) {
    0 <= x < GridN && 0 <= y < GridM
  }

  /** Linear index of storage cell (ix, iy); it is in bounds. */
  function Idx(ix: int, iy: int): (i: int)
    requires InStorage(ix, iy)
    ensures 0 <= i < Size
  {
    iy * Width + ix
  }

  /** The linear index of a storage cell decodes back to its column and row,
      so distinct storage cells never share a buffer slot. */
  lemma Encode(ix: int, iy: int)
    requires InStorage(ix, iy)
    ensures Col(Idx(ix, iy)) == ix && Row(Idx(ix, iy)) == iy
  {
  }

  /** Column of a linear index. */
  function Col(i: int): int { i % Width }

  /** Row of a linear index. */
  function Row(i: int): int { i / Width }

  /** Every linear index of the buffer is the index of exactly one storage cell. */
  lemma Decode(i: int)
    requires 0 <= i < Size
    ensures InStorage(Col(i), Row(i))
    ensures Idx(Col(i), Row(i)) == i
  {
  }

  /** Interior storage cells are exactly the logical cells shifted by Ghost. */
  lemma InteriorIsLogical(ix: int, iy: int)
    ensures Interior(ix, iy) <==> Logical(ix - Ghost, iy - Ghost)
  {
  }

  /** All eight neighbour positions of an interior cell, and the cell itself,
      are storage positions: this is what the ghost ring is for. */
  lemma NeighborInBounds(ix: int, iy: int, dx: int, dy: int)
    requires Interior(ix, iy)
    requires -1 <= dx <= 1 && -1 <= dy <= 1
    ensures InStorage(ix + dx, iy + dy)
    ensures 0 <= Idx(ix + dx, iy + dy) < Size
  {
  }

  /** A whole buffer. */
  predicate IsBoard(b: seq<bool>) {
    |b| == Size
  }

  /** Linear index i lies on the ghost ring. */
  predicate OnRing(i: int) {
    !Interior(Col(i), Row(i))
  }

  /** Every ghost-ring cell is dead. */
  predicate GhostDead(b: seq<bool>) {
    forall i :: 0 <= i < |b| && OnRing(i) ==> !b[i]
  }

  /** No cell of the board is alive. */
  predicate AllDead(b: seq<bool>) {
    forall i :: 0 <= i < |b| ==> !b[i]
  }

  /** Every seed cell is a logical cell. */
  predicate ValidCells(cells: seq<(int, int)>) {
    forall c :: c in cells ==> Logical(c.0, c.1)
  }

  /** A zero-initialised buffer: every cell dead. */
  function Empty(): (b: seq<bool>)
    ensures IsBoard(b) && AllDead(b)
  {
    seq(Size, _ => false)
  }

  /** The buffer after the given logical cells, in order, have been marked
      alive on a zero-initialised board (set_alive on each). */
  function Seeded(cells: seq<(int, int)>): (b: seq<bool>)
    requires ValidCells(cells)
    ensures IsBoard(b)
  {
    if cells == [] then Empty()
    else
      var last := cells[|cells| - 1];
      Seeded(cells[..|cells| - 1])[Idx(last.0 + Ghost, last.1 + Ghost) := true]
  }

  /** Seeding marks exactly the listed cells: a logical cell is alive iff it
      is listed, and the ghost ring stays dead. */
  lemma {:induction false} SeededAt(cells: seq<(int, int)>, x: int, y: int)
    requires ValidCells(cells) && Logical(x, y)
    ensures Seeded(cells)[Idx(x + Ghost, y + Ghost)] <==> (x, y) in cells
  {
    if cells != [] {
      var init, last := cells[..|cells| - 1], cells[|cells| - 1];
      assert cells == init + [last];
      SeededAt(init, x, y);
      Encode(x + Ghost, y + Ghost);
      Encode(last.0 + Ghost, last.1 + Ghost);
    }
  }

  /** Seeding never touches the ghost ring. */
  lemma {:induction false} SeededGhostDead(cells: seq<(int, int)>)
    requires ValidCells(cells)
    ensures GhostDead(Seeded(cells))
  {
    if cells != [] {
      var init, last := cells[..|cells| - 1], cells[|cells| - 1];
      assert last in cells;
      SeededGhostDead(init);
      Encode(last.0 + Ghost, last.1 + Ghost);
    }
  }

  /** The hard-coded seed: a five-cell cluster and one isolated cell, as
      logical (x, y) pairs. */
  const InitialCells: seq<(int, int)> := [(5, 4), (5, 5), (6, 6), (6, 5), (5, 6), (9, 9)]
}
