# Game of Life grid-update engine, modelled in Dafny

This project models the engine of a Conway's Game of Life simulator that is
written in C++ with SYCL. The engine has four parts:

- **The board.** A flat `bool` buffer of `(GRID_N+2) x (GRID_M+2)` cells
  holds the 10 x 10 logical board. Around it is a one-cell ghost ring of
  cells that are always dead. Storage cell `(ix, iy)` lives at index
  `iy * GRID_N_GHOST + ix`, and logical cell `(x, y)` is storage cell
  `(x+1, y+1)`.
- **The kernel.** A data-parallel launch over the whole storage range. Each
  work-item on an interior coordinate adds up its eight neighbours in the
  read-only current buffer. It then writes its next state into the
  write-only next buffer, using the three-branch rule:
  - dead below 2 or above 3 neighbours;
  - alive at exactly 3;
  - unchanged at exactly 2.
- **The driver.** It allocates two zero-initialised buffers and marks the
  hard-coded seed alive. It prints generation 0. It then runs `iterations`
  rounds of: step current into next, print next, swap the two pointers.
- **`printBoard`.** It emits the interior as rows of `'0'` (alive) and `'.'`
  (dead).

The Dafny modules follow these parts:

- `Board` (`board.dfy`): the constants, the index arithmetic, the ghost
  ring, and seeding.
- `Life` (`life.dfy`): the pure specification. It has the neighbour count,
  the rule, `Step` (one generation) and `Generation` (k generations).
- `Kernel` (`kernel.dfy`): the kernel as imperative code over `array<bool>`.
  `CountNeighbors` and `CellKernel` are one work-item. `StepBoard` is the
  launch, run as a sequential nested loop. `ApplyItems` is a pure model of
  running the work-items in an arbitrary order.
- `Renderer` (`renderer.dfy`): `Render` as a pure function and `PrintBoard`
  as the nested printing loop.
- `Driver` (`driver.dfy`): `Simulate`, the double-buffered loop with the
  pointer swap. It returns the printed frames and the final buffer.
- `Patterns` (`patterns.dfy`): known patterns. A seeded board is stepped
  by applying the rule to its list of live cells (`StepSeeded`). This gives
  the 2 x 2 block, the blinker and the first generation of the hard-coded
  seed.

The main results:

- `StepBoard` writes exactly `Step(cur)` into the interior of `next`. It
  leaves the ghost ring of `next` as it was and does not write `cur`.
- Any schedule of work-items that visits every interior cell gives the same
  buffer (`ScheduleOrderIrrelevant`, `AnyScheduleComputesStep`). This is why
  the parallel launch may be modelled as one sequential loop.
- After any number of rounds, frame `k` printed by `Simulate` is the
  rendering of `Generation(seed, k)`. The two pointers always refer to the
  two distinct buffers, and both ghost rings stay dead.
- A 2 x 2 block anywhere on the board is a still life. A blinker whose two
  phases both fit on the board (its centre not on the board's edge) has
  period 2, including the one on logical cells `(1, 0)`, `(1, 1)`, `(1, 2)`
  that touches the ghost ring. A vertical line of three on the left edge
  does not oscillate: the ghost column never comes alive, so it shrinks to
  two cells and then dies. The hard-coded seed
  steps to the five cells `(4, 5)`, `(5, 4)`, `(5, 6)`, `(6, 4)`, `(6, 6)`.

**Board shape.** The SYCL buffer is shaped `{GRID_N_GHOST, GRID_M_GHOST}` and
read as `[iy][ix]`. That gives row stride `GRID_M_GHOST`, but `printBoard`
uses stride `GRID_N_GHOST`. The two agree only because `GRID_N == GRID_M`.
The model uses a single row stride `Width`, and `LayoutConstants` records
that the board is square. The constants are written as literals (12 and
144) so that the solver only sees linear index arithmetic.
`LayoutConstants` proves that these literals equal the expressions the
macros define.

**Iteration count.** A negative count is not rejected: the loop runs
`max(iterations, 0)` rounds (`Rounds`). This follows the code, which only
checks that an argument is present.

## Model

| member | source | states |
|---|---|---|
| `Board.LayoutConstants` | gameoflife.cpp:9-13 | Storage extents are the logical extents plus a ghost cell on each side, the buffer holds Width x Height cells, and the board is square so the two row strides coincide |
| `Board.Idx` | gameoflife.cpp:19 | The linear index of any storage coordinate lies inside the buffer |
| `Board.Encode` | gameoflife.cpp:19 | A storage coordinate's linear index decodes back to the same column and row, so distinct cells never share a slot |
| `Board.Decode` | gameoflife.cpp:19 | Every index of the buffer is the linear index of exactly one storage coordinate |
| `Board.InteriorIsLogical` | gameoflife.cpp:81 | The kernel's interior guard holds exactly on the logical cells shifted by the ghost width, which are the cells `printBoard` walks (lines 17-18) |
| `Board.NeighborInBounds` | gameoflife.cpp:81-90 | For an interior cell, the cell and all eight neighbour positions are in-bounds storage positions |
| `Board.Empty` | gameoflife.cpp:52-55 | A zero-initialised buffer has the full size and every cell dead |
| `Board.Seeded` | gameoflife.cpp:57-62 | Marking the seed cells yields a full-size buffer; `SeededAt` and `SeededGhostDead` state which cells are alive |
| `Board.SeededAt` | gameoflife.cpp:57-62 | After marking the seed cells on a zero board, a logical cell is alive iff it is in the seed |
| `Board.SeededGhostDead` | gameoflife.cpp:57-62 | Marking seed cells never makes a ghost-ring cell alive |
| `Life.Live` | gameoflife.cpp:83-90 | A cell read as an integer adds 1 when alive and 0 when dead |
| `Life.Neighbors` | gameoflife.cpp:82-90 | The kernel's sum of the eight neighbour reads lies in 0..8 |
| `Life.NeighborsIsWindowWithoutCentre` | gameoflife.cpp:82-90 | The kernel's count equals the number of live cells in the 3 x 3 window around the cell, the centre excluded |
| `Life.Rule` | gameoflife.cpp:92-98 | The three-branch rule is the standard B3/S23 rule: a dead cell is born with exactly 3 neighbours, a live cell survives with 2 or 3 |
| `Life.Step` | gameoflife.cpp:77-100 | One generation is again a full-size buffer; `StepAt` characterises every cell of it and `Kernel.StepBoard` is proved to compute it |
| `Life.StepAt` | gameoflife.cpp:77-100 | In the next generation a ghost-ring cell is dead and an interior cell is the rule applied to its current state and neighbour count |
| `Life.StepGhostDead` | gameoflife.cpp:81 | One generation leaves every ghost-ring cell dead, whatever the input's ring |
| `Life.TransitionRule` | gameoflife.cpp:92-98 | An interior cell is dead after a step with fewer than 2 or more than 3 neighbours, alive with exactly 3, unchanged with exactly 2 |
| `Life.Generation` | gameoflife.cpp:67-108 | k rounds of the loop yield a full-size buffer; `GenerationAdd`, `GenerationGhostDead` and `Driver.Simulate` state what it holds |
| `Life.GenerationGhostDead` | gameoflife.cpp:67-108 | A board with a dead ghost ring keeps it for any number of generations |
| `Life.GenerationAdd` | gameoflife.cpp:67-108 | Running j generations and then k more is running j + k generations |
| `Life.AllDeadStepsToAllDead` | gameoflife.cpp:92-93 | An all-dead board steps to an all-dead board |
| `Life.AllDeadForever` | gameoflife.cpp:67-108 | An all-dead board stays all-dead for any number of generations |
| `Life.IsolatedCellDies` | gameoflife.cpp:92-93 | An interior cell none of whose eight neighbours is alive is dead after one step |
| `Life.StillLifeForever` | gameoflife.cpp:67-108 | A board that one step leaves unchanged is unchanged after any number of generations |
| `Life.OscillatorPeriodTwo` | gameoflife.cpp:67-108 | A board that two steps restore is restored after every even number of generations |
| `Kernel.ApplyItem` | gameoflife.cpp:78-99 | One work-item changes only its own slot of the next buffer: a ghost coordinate keeps the old value, an interior one receives its next-generation state |
| `Kernel.ApplyItems` | gameoflife.cpp:77-100 | A schedule of work-items leaves a full-size next buffer; `ApplyItemsAt` states each of its cells |
| `Kernel.ApplyItemsAt` | gameoflife.cpp:77-100 | After any schedule of work-items, each interior cell it visits holds its next-generation state and every other cell keeps the next buffer's old value |
| `Kernel.ScheduleOrderIrrelevant` | gameoflife.cpp:77-100 | Two schedules that visit the same interior cells, in any order and with any repetitions, leave the same next buffer |
| `Kernel.AnyScheduleComputesStep` | gameoflife.cpp:77-100 | Any schedule that covers the interior, on a next buffer with a dead ghost ring, yields exactly one generation of the current buffer |
| `Kernel.CountNeighbors` | gameoflife.cpp:82-90 | The eight reads and increments of the counter compute the neighbour count of the cell |
| `Kernel.CellKernel` | gameoflife.cpp:78-99 | One work-item writes, at most, its own slot of the next buffer, with the value the pure model of a work-item gives |
| `Kernel.StepBoard` | gameoflife.cpp:77-100 | The full launch writes the next generation into every interior cell of next, keeps next's ghost ring, does not modify cur, and yields exactly Step(cur) when next's ring was dead |
| `Renderer.Render` | gameoflife.cpp:15-28 | The rendering has one row per logical row; `RenderedGlyph` states each glyph |
| `Renderer.RenderedGlyph` | gameoflife.cpp:17-23 | The rendering has GridM rows of GridN glyphs, and the glyph at row y, column x is '0' iff storage cell (x+1, y+1) is alive and '.' otherwise |
| `Renderer.RenderDeterminesInterior` | gameoflife.cpp:15-28 | Two boards render identically iff they agree on every logical cell, so ghost cells are never rendered and no interior cell is lost |
| `Renderer.PrintBoard` | gameoflife.cpp:15-28 | The nested printing loop emits exactly the rows of Render for the buffer |
| `Driver.Rounds` | gameoflife.cpp:67 | The loop runs `iterations` rounds when that is positive and none otherwise |
| `Driver.SeedBoard` | gameoflife.cpp:57-62 | Marking the seed cells on a zero-initialised buffer leaves the seeded board |
| `Driver.StepAndPrint` | gameoflife.cpp:69-105 | One round turns generation i in the current buffer into generation i + 1 in the next buffer, keeps its ghost ring dead and prints it |
| `Patterns.SeededShows` | gameoflife.cpp:52-62 | On a zero-initialised buffer with the listed cells marked, a storage cell is alive iff its logical coordinate is listed, so ghost-ring cells are dead |
| `Patterns.ShownNeighbors` | gameoflife.cpp:82-90 | On such a board, the kernel's neighbour count of an interior cell is the number of listed cells among its eight logical neighbours |
| `Patterns.StepShownCell` | gameoflife.cpp:77-100 | A cell of the next generation of such a board is alive iff it is a logical cell and the three-branch rule, applied to the list, keeps it alive |
| `Patterns.StepSeeded` | gameoflife.cpp:77-100 | If a second list holds exactly the cells the rule keeps alive, one generation of the first seeded board is the second seeded board |
| `Patterns.BlockIsStillLife` | gameoflife.cpp:92-98 | A 2 x 2 block anywhere on the board is unchanged by one generation and by any number of generations |
| `Patterns.BlinkerOscillates` | gameoflife.cpp:92-98 | A blinker whose two phases both fit on the board (its centre not on the board's edge) turns from vertical to horizontal and back, so it returns after every even number of generations |
| `Patterns.EdgeLineDies` | gameoflife.cpp:81-98 | A vertical line of three on the board's left edge becomes a pair of cells after one generation and is all dead from the second generation on, because cells beyond the edge (the ghost ring) are never born |
| `Patterns.EdgePairDies` | gameoflife.cpp:92-98 | That pair of cells dies in one generation |
| `Patterns.InitialFirstGeneration` | gameoflife.cpp:57-100 | One generation of the hard-coded seed keeps (5, 4), (5, 6) and (6, 6), gains (4, 5) and (6, 4), and kills (5, 5), (6, 5) and the isolated (9, 9) |
| `Driver.Simulate` | gameoflife.cpp:52-109 | Rounds(iterations) + 1 frames are printed, frame k is the rendering of generation k of the seed, and the current pointer ends on the last generation |

## Left out

- SYCL queue, buffers, accessors and the `.wait()` barrier (gameoflife.cpp:32-33, 70-75, 101): a foreign library. The launch is a sequential loop (`StepBoard`). Concurrent execution is represented only by arbitrary schedules (`ApplyItems`). Writes go straight to the host arrays; copying back when the buffers are destroyed is not modelled.
- Argument handling (gameoflife.cpp:37-50): the `argc` check, the thrown message, `exit(1)` and `atoi` are process I/O and a C library call. `iterations` is an ordinary `int` parameter.
- Output (gameoflife.cpp:20-27, 64, 104): `cout` is I/O. Each printed board is returned as a sequence of row strings. The `Step n:` headers and the blank line after each board are not modelled.
- Board-file loading: commented out in this file. The seed is a parameter of `Simulate`; the hard-coded seed of gameoflife.cpp:57-62 is the constant `Board.InitialCells`.
- `Simulate` requires every seed cell to be a logical cell. An out-of-range coordinate writes outside the intended cell in the source, and that behaviour is not modelled.
