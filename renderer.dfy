/** Rendering of a board as rows of glyphs: one row per logical row, one
    glyph per logical column, '0' for a live cell and '.' for a dead one.
    The ghost ring is never rendered. */
module Renderer {
  import opened Board

  /** The glyph of one cell. */
  function Glyph(alive: bool): char {
    if alive then '0' else '.'
  }

  /** Logical row y as text. */
  function RenderRow(b: seq<bool>, y: int): (row: string)
    requires IsBoard(b) && 0 <= y < GridM
    ensures |row| == GridN
  {
    seq(GridN, x requires 0 <= x < GridN => Glyph(b[Idx(x + Ghost, y + Ghost)]))
  }

  /** The whole visible board as text, top row first. */
  function Render(b: seq<bool>): (rows: seq<string>)
    requires IsBoard(b)
    ensures |rows| == GridM
  {
    seq(GridM, y requires 0 <= y < GridM => RenderRow(b, y))
  }

  /** The rendering has GridM rows of GridN glyphs; the glyph at row y,
      column x is '0' exactly when storage cell (x + Ghost, y + Ghost) is
      alive, and '.' otherwise. */
  lemma RenderedGlyph(b: seq<bool>, x: int, y: int)
    requires IsBoard(b) && Logical(x, y)
    ensures |Render(b)| == GridM && |Render(b)[y]| == GridN
    ensures Render(b)[y][x] == '0' <==> b[Idx(x + Ghost, y + Ghost)]
    ensures Render(b)[y][x] == '.' <==> !b[Idx(x + Ghost, y + Ghost)]
  {
    assert Render(b)[y] == RenderRow(b, y);
    assert RenderRow(b, y)[x] == Glyph(b[Idx(x + Ghost, y + Ghost)]);
  }

  /** Two boards render to the same text exactly when they agree on every
      logical cell: rendering loses the ghost ring and nothing else. */
  lemma RenderDeterminesInterior(b: seq<bool>, c: seq<bool>)
    requires IsBoard(b) && IsBoard(c)
    ensures Render(b) == Render(c) <==>
            forall x, y :: Logical(x, y) ==> b[Idx(x + Ghost, y + Ghost)] == c[Idx(x + Ghost, y + Ghost)]
  {
    if Render(b) == Render(c) {
      forall x, y | Logical(x, y)
        ensures b[Idx(x + Ghost, y + Ghost)] == c[Idx(x + Ghost, y + Ghost)]
      {
        RenderedGlyph(b, x, y);
        RenderedGlyph(c, x, y);
      }
    }
    if forall x, y :: Logical(x, y) ==> b[Idx(x + Ghost, y + Ghost)] == c[Idx(x + Ghost, y + Ghost)] {
      forall y | 0 <= y < GridM
        ensures RenderRow(b, y) == RenderRow(c, y)
      {
        forall x | 0 <= x < GridN
          ensures RenderRow(b, y)[x] == RenderRow(c, y)[x]
        {
          assert Logical(x, y);
        }
      }
      assert forall y :: 0 <= y < GridM ==> Render(b)[y] == Render(c)[y];
    }
  }

  /** The printing loop: walks the interior rows and columns of the buffer
      and emits one line of glyphs per row. */
  method PrintBoard(board: array<bool>) returns (rows: seq<string>)
    requires board.Length == Size
    ensures rows == Render(board[..])
  {
    rows := [];
    var iy := Ghost;
    while iy < GridM + Ghost
      invariant Ghost <= iy <= GridM + Ghost
      invariant |rows| == iy - Ghost
      invariant forall y :: 0 <= y < iy - Ghost ==> rows[y] == RenderRow(board[..], y)
    {
      var line := "";
      var ix := Ghost;
      while ix < GridN + Ghost
        invariant Ghost <= ix <= GridN + Ghost
        invariant |line| == ix - Ghost
        invariant forall x :: 0 <= x < ix - Ghost ==> line[x] == RenderRow(board[..], iy - Ghost)[x]
      {
        ghost var before := line;
        if board[Idx(ix, iy)] {
          line := line + "0";
        } else {
          line := line + ".";
        }
        assert line == before + [Glyph(board[..][Idx(ix, iy)])];
        assert RenderRow(board[..], iy - Ghost)[ix - Ghost] == Glyph(board[..][Idx(ix, iy)]);
        ix := ix + 1;
      }
      rows := rows + [line];
      iy := iy + 1;
    }
  }
}
