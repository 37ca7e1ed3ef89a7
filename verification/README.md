# Game of Life board skeleton, in Dafny

This project models the cell and board data structures of an early Game of
Life program written in Rust (`src/main.rs`). At this stage the program has
no game logic: no neighbour enumeration, no transition rule and no
generation step. What exists is:

- a `Cell` holding a liveness flag and an unsigned-byte neighbour count,
  with a constructor and the mutators `on` and `off`;
- a `Board` holding a fixed 10 × 10 grid of cells, with a constructor and
  `update_neighbor_counts`, a row-major nested loop that calls the per-square
  routine `update_neighbor_count`, whose body is empty;
- an entry point that switches square (0, 1) on, writes 14 into its count
  and runs the refresh pass.

The model has two modules.

- `Cells` (`cell.dfy`): `Cell` is an immutable datatype. The count is a
  `u8` newtype over `0..255`. The in-place mutators become functions that
  return the updated cell.
- `Boards` (`board.dfy`): `Board` is a datatype over `seq<seq<Cell>>`, and
  `Valid` states the `HEIGHT × WIDTH` shape that the Rust array type fixes.
  `RowMajorPass` is a method with the same nested loop as the source. It
  takes the per-square routine as a parameter `f`, and its contract states
  that the result is `f` applied at each position of `RowMajor`, in order.
  `RowMajor` is the reference list of the grid's positions, row by row.
  `RowMajorVisits` proves that this list stays in range, goes strictly
  forward and reaches every square, so each square is visited exactly once.
  `UpdateNeighborCounts` runs the loop with `UpdateNeighborCount`, the empty
  per-square routine. `RefreshesLeaveBoard` proves that no sequence of calls
  to that routine changes the board, so the pass returns the board
  unchanged.

## Model

| member | source | states |
|---|---|---|
| Cells.New | src/main.rs:37-39 | a fresh cell is dead and its neighbour count is 0 |
| Cells.On | src/main.rs:41-43 | `on` makes the cell live and keeps its neighbour count |
| Cells.Off | src/main.rs:45-47 | `off` makes the cell dead and keeps its neighbour count |
| Cells.WithNeighborCount | src/main.rs:55 | writing the count field stores exactly the given byte, even one above 8, and keeps the liveness |
| Cells.OnIdempotent | src/main.rs:41-43 | calling `on` twice has the same effect as calling it once |
| Cells.OffIdempotent | src/main.rs:45-47 | calling `off` twice has the same effect as calling it once |
| Cells.LastSwitchWins | src/main.rs:84-91 | after `on` then `off` the cell is as if only `off` had been called, so a fresh cell switched on and off is fresh again; symmetrically for `off` then `on` |
| Cells.SwitchRoundTrip | src/main.rs:41-47 | `on` undoes `off` on a live cell, and `off` undoes `on` on a dead cell |
| Cells.SwitchCommutesWithCount | src/main.rs:53-55 | switching liveness and writing the count commute |
| Boards.New | src/main.rs:14-16 | the new board has `HEIGHT` rows of `WIDTH` cells, and every cell is a fresh cell |
| Boards.Put | src/main.rs:53-55 | a write through a reference to square (i, j) keeps the board's shape, stores the value at (i, j), and leaves every other square unchanged |
| Boards.PutSameIsIdentity | src/main.rs:53-55 | the get-then-put law of a write through a reference: storing the value already at a square leaves the whole board unchanged |
| Boards.TurnOnChangesOnlyThatCell | src/main.rs:53-54 | switching one square on makes it live, keeps its count, and changes no other square |
| Boards.UpdateNeighborCount | src/main.rs:26-27 | the per-square refresh, whose body is empty, returns the board unchanged for any index |
| Boards.RefreshesLeaveBoard | src/main.rs:26-27 | any sequence of per-square refresh calls, at any indices, leaves every cell's liveness and count unchanged |
| Boards.RowMajorAt | src/main.rs:19-20 | square (i, j) is visited at step `i * WIDTH + j` of the row-by-row order |
| Boards.RowMajorVisits | src/main.rs:19-21 | the row-by-row order never leaves the grid, goes strictly forward, and reaches every square |
| Boards.VisitsOnce | src/main.rs:19-21 | an order that goes strictly forward never visits a square twice |
| Boards.RowMajorPass | src/main.rs:19-23 | for any per-square routine `f`, the nested loop's result is `f` applied at each position of the row-major list, in that order, and at no other position |
| Boards.UpdateNeighborCounts | src/main.rs:18-24 | the pass applies the per-square refresh at each position of the row-major list, in order, and returns the board unchanged |
| Boards.EntryPointState | src/main.rs:50-57 | after the entry point's steps, square (0, 1) is live with count 14 and every other square is still fresh |

## Left out

- The final `println!` of the entry point and the derived `Debug` formatting are console output. The model stops at the state that would be printed.
- The `set_cell` test helper and the test that uses it write both fields at once. This is `On`/`Off` followed by `WithNeighborCount`, so no separate member models it.
- The two test functions `update_neighbor_count` and `update_neighbor_counts` are not marked as tests, so they never run. They also read a copy of a cell taken before the update, so they state nothing about the code.
- In-place mutation through `&mut self` is modelled by functions that return the updated value. The Rust `Board` and `Cell` are plain `Copy` values, so nothing is lost.
- Boards.Put: indexing outside the grid panics in Rust. The model makes an in-range index a precondition rather than modelling the panic. The only writes in the program use the constant square (0, 1).
- The neighbour count is a `u8`, and nothing in the program does arithmetic on it, so there is no wrap-around to model. No `[0, 8]` bound is imposed, because the entry point stores 14.
- `usize` limits on indices are not modelled. Every index used is below 10.
