# Game of Life core: a Dafny model of `State` in src/state.rs

The program keeps a Conway's Game of Life board of `W` columns and `H` rows as
two flat `Vec<u8>` buffers, `board` (the generation on screen) and
`board_next` (where the next generation is built), both indexed row-major as
`y * W + x`, and a `paused` flag. This project models that state and the
operations that change it:

- `State::new` fills both buffers with one random byte per cell;
- `toggle_cell` flips one cell with `^= 1`;
- `check_neighbours` counts, for every cell, the live cells of its 3x3
  toroidal window minus the cell itself, and writes the B3/S23 result into
  `board_next`;
- `update_state` copies `board_next` into `board`;
- `randomize` writes one fresh random byte per cell into both buffers;
- `update` runs `check_neighbours` and `update_state` once per frame-timer
  tick unless `paused` is set;
- `key_down_event` flips `paused` on Space, randomizes on the 5 key and quits
  on Escape.

Two modules:

- `LifeRules` (rules.dfy) is the specification side. It holds pure functions
  of a board and lemmas about them:
  - the index arithmetic, including Rust's truncating `%`;
  - the toroidal wrap;
  - the neighbour count and the rule;
  - one generation (`NextBoard`) and `n` generations (`Generations`);
  - the order in which the nested loops visit the cells;
  - the buffers that the loops leave behind after `p` steps (`Written`, `Drawn`).
- `LifeState` (state.dfy) is the class `State`. It has the two buffers as
  arrays of bytes and the pause flag. Its methods are the source's loops, each
  proved against the functions of `LifeRules`.

`W` and `H` are the fields `w` and `h` of `State`. They can be any sizes of at
least 1 with `w * h + w + h` at most `i32::MAX` (`FitsI32`), a bound that is
enough for the index arithmetic of check_neighbours to stay inside Rust's
`i32` (some larger sizes would stay inside it too); the program sets both to
100 (src/main.rs:6). Cells are bytes (`bv8`), so
`^= 1` is a real exclusive or, and bytes other than 0 and 1 can be stated and
reasoned about.

Rust's `panic!` and its index-out-of-bounds panic are modelled as values the
methods return. `CheckNeighbours` returns the loop step at which a byte other
than 0 or 1 was met. `ToggleCell` returns whether the index was past the end.

Points where the model follows the code closely:

- The loops visit column `i` outside and row `j` inside, so step `i * H + j`
  handles index `j * W + i`. `Pos` and `Cell` are this bijection between
  indices and steps.
- If check_neighbours panics at step `p`, the steps before `p` have already
  written their cells of `board_next` and the others have not. `Panicked`
  states exactly that.
- `State::new` pushes draw `k` onto both vectors, so draw `k` lands at index
  `k`. `randomize` instead writes draw `i * H + j` at index `j * W + i`. The
  two layouts differ, and the model keeps both (`InitialBoard`, `RandomBoard`).
- every board the program can reach holds only 0s and 1s, which keeps the
  panic arm unreachable. `State.Reachable` is that invariant: the constructor
  establishes it, `ToggleCell` and `KeyDown` keep it, and `Tick` and `Update`
  keep it and never panic from it, because:
  - the initial board is all 0s and 1s;
  - toggling a cell of a board of 0s and 1s gives a board of 0s and 1s (`ToggleBinary`);
  - randomizing gives 0s and 1s;
  - one generation gives 0s and 1s.

## Model

| member | source | states |
|---|---|---|
| LifeRules.RustRem | src/state.rs:89 | Rust's `%` on `i32`: truncating, the remainder takes the sign of the dividend, and on a non-negative dividend it is the mathematical remainder |
| LifeRules.Wrap | src/state.rs:89 | `(v + d) % d` with Rust's `%` is the true residue `v mod d` and lies in `[0, d)` for every offset `v >= -d`, so the offsets -1 and `d` wrap to `d - 1` and 0 |
| LifeRules.Wrapped | src/state.rs:89 | the index `((y + h) % h) * w + ((x + w) % w)` lies in `[0, w * h)` for every `x >= -w` and `y >= -h`, in particular for x in `[-1, W]` and y in `[-1, H]` |
| LifeRules.WrappedIsTorus | src/state.rs:89 | the wrapped index is the row-major index of the torus cell `(x mod w, y mod h)`: its column is `x mod w` and its row `y mod h` |
| LifeRules.CornerWraps | src/state.rs:87-89 | cell (0, 0) reads the opposite corner `(W-1, H-1)`, the last column `(W-1, 0)` and the last row `(0, H-1)` |
| LifeRules.CountLive | src/state.rs:87-93 | the count of listed cells equal to 1 is at most the number listed and is 0 when none of them is 1 |
| LifeRules.Live | src/state.rs:89-91 | what one test `board[..] == 1` adds to `count`: at most 1, and 1 exactly when the byte is 1 |
| LifeRules.CountLiveAppend | src/state.rs:87-93 | counting over a concatenation is the sum of the counts |
| LifeRules.Window | src/state.rs:87-89 | the 3x3 window of cell (i, j), in the loops' order (x outer, y inner): nine indices, all inside the board |
| LifeRules.Column | src/state.rs:88-89 | one column of the window, three indices inside the board |
| LifeRules.ColumnLive | src/state.rs:88-92 | the running `count` of the inner `y` loop after its first n turns over column x: never more than n |
| LifeRules.WindowLive | src/state.rs:87-93 | the `count` of the `x` loop after its first m columns: never more than 3 m |
| LifeRules.ColumnLiveIsCount | src/state.rs:88-92 | the counting of the inner `y` loop over one column equals the live count of that column's three cells |
| LifeRules.WindowLiveIsCount | src/state.rs:87-93 | the column-by-column count of the two inner loops equals the live count of the nine cells of the window |
| LifeRules.NeighbourCells | src/state.rs:87-89 | the eight toroidal neighbours of (i, j), all inside the board |
| LifeRules.WindowSplit | src/state.rs:87-96 | the window's live count is the live count among the eight neighbours plus the cell's own |
| LifeRules.NeighboursAreEight | src/state.rs:86-96 | the loops' count minus one when the cell is 1 equals the number of live cells among the eight toroidal neighbours |
| LifeRules.Neighbours | src/state.rs:86-96 | the neighbour count of a cell after subtracting itself lies in 0..8 |
| LifeRules.NeighboursAt | src/state.rs:85-96 | for cell (i, j) at index `j * w + i`, the neighbour count is the window count minus the cell's own live value |
| LifeRules.Rule | src/state.rs:97-111 | the match on the cell: no result (the panic arm) exactly when the byte is neither 0 nor 1; otherwise the result is 0 or 1, and it is 1 exactly when the cell is 1 with 2 or 3 neighbours or 0 with exactly 3 |
| LifeRules.NextCell | src/state.rs:94-111 | the match applied to the cell at index c with its neighbour count: no result (the panic arm) exactly when the byte is not 0 or 1, otherwise a 0 or a 1 |
| LifeRules.NextPrefix | src/state.rs:83-113 | the rule's values of cells 0..k-1 in index order (0 where the rule panics): k bytes, each 0 or 1 |
| LifeRules.NextPrefixAt | src/state.rs:83-113 | at every cell that is 0 or 1, the value for that cell is the rule's value there |
| LifeRules.NextBoard | src/state.rs:80-114 | the next generation of a board of 0s and 1s has the same size and holds only 0s and 1s |
| LifeRules.NextBoardAt | src/state.rs:94-109 | B3/S23 per cell: the next value is the rule's; it is 1 exactly when the cell is 1 with 2 or 3 live neighbours or 0 with exactly 3, and 0 exactly when the cell is 1 with fewer than 2 or more than 3 or 0 with any count but 3 |
| LifeRules.Generations | src/state.rs:141-146 | n generations of a board of 0s and 1s keep its size and hold only 0s and 1s |
| LifeRules.Pos | src/state.rs:83-85 | the step at which the loops reach index c lies in `[0, w * h)`; its column is `c mod w` and its row `c div w` |
| LifeRules.Cell | src/state.rs:83-85 | the index that the loops handle at step p lies in `[0, w * h)`; its column is `p div h` and its row `p mod h` |
| LifeRules.PosCell | src/state.rs:83-85 | Pos and Cell are inverse bijections, so every index is handled exactly once |
| LifeRules.VisitOrder | src/state.rs:83-85 | step `i * h + j` handles index `j * w + i`, and both lie inside the board |
| LifeRules.Written | src/state.rs:118-121 | the buffer after p steps of a pass that writes a target value per index keeps the board's size |
| LifeRules.WrittenAt | src/state.rs:118-121 | after p steps an index holds its target value if its step is before p, its original value otherwise |
| LifeRules.WrittenStep | src/state.rs:118-121 | step `i * h + j` writes the target value at index `j * w + i` |
| LifeRules.WrittenAll | src/state.rs:118-123 | after all `w * h` steps the buffer is the target, whatever it held before |
| LifeRules.NextTarget | src/state.rs:83-113 | the values check_neighbours writes exist: at every cell that is 0 or 1, the rule's value |
| LifeRules.NextTargetIsNext | src/state.rs:80-114 | on a board of 0s and 1s those values are exactly the next generation |
| LifeRules.WrittenPartial | src/state.rs:83-113 | after p steps over cells that are all 0 or 1, every index visited so far holds the rule's value and every other index its old value |
| LifeRules.PanicStep | src/state.rs:110 | a step whose cell is neither 0 nor 1 leaves the state `Panicked` at that step: earlier cells all 0 or 1 and written, later ones untouched |
| LifeRules.Panicked | src/state.rs:110 | the state of a pass that panics at step p: the cell of step p is not 0 or 1, every earlier cell is and has been written; a board in that state is not all 0s and 1s |
| LifeRules.BinaryStep | src/state.rs:97-110 | a step that does not panic extends the run of cells seen to be 0 or 1 |
| LifeRules.BinaryBefore | src/state.rs:97-110 | no panic during the first p steps: each cell visited so far is 0 or 1; every board of 0s and 1s satisfies it for every p |
| LifeRules.BinaryBeforeAt | src/state.rs:97-110 | every cell visited before step p of a pass that has not panicked is 0 or 1 |
| LifeRules.BinaryBeforeAll | src/state.rs:97-110 | a pass reaches its end without panicking exactly when every cell of the board is 0 or 1 |
| LifeRules.BitByte | src/state.rs:131 | `gen::<bool>() as u8` is 0 or 1, and 1 exactly when the draw is true |
| LifeRules.InitialBoard | src/state.rs:44-49 | the board `new` builds has one cell per draw, each 0 or 1, and cell k is 1 exactly when draw k is true |
| LifeRules.RandomBoard | src/state.rs:126-136 | the board `randomize` writes has the board's size and holds only 0s and 1s |
| LifeRules.RandomBoardAt | src/state.rs:129-133 | cell (i, j) of the randomized board is 1 exactly when draw `i * h + j` is true |
| LifeRules.Drawn | src/state.rs:129-135 | the buffer after p steps of randomize keeps the board's size |
| LifeRules.DrawnAt | src/state.rs:129-135 | after p steps of randomize, the index of step q < p holds draw q and every later index its old value |
| LifeRules.DrawnStep | src/state.rs:131-133 | step `i * h + j` writes draw `i * h + j` at index `j * w + i` |
| LifeRules.DrawnAll | src/state.rs:129-135 | after all steps the buffer is the random board, whatever it held before |
| LifeRules.Toggled | src/state.rs:77 | `board[k] ^= 1` keeps the size, changes no other cell, turns 0 into 1 and 1 into 0, and keeps a byte 0-or-1 exactly when it was |
| LifeRules.ToggleTwice | src/state.rs:77 | toggling the same cell twice restores the board |
| LifeRules.ToggleBinary | src/state.rs:77 | toggling keeps a board of 0s and 1s a board of 0s and 1s |
| LifeRules.DeadStaysDead | src/state.rs:94-109 | a board with no live cell has no birth: its next generation is all dead |
| LifeRules.DeadForever | src/state.rs:141-146 | an all-dead board stays all dead for any number of generations |
| LifeState.PushDraws | src/state.rs:44-49 | the push loop of `new`: index k of both buffers holds draw k, and the two buffers are equal |
| LifeState.State.constructor | src/state.rs:23-49 | the new state starts paused, with both buffers of size `w * h` holding the initial board, and is reachable (all 0s and 1s) |
| LifeState.State.ToggleCell | src/state.rs:76-78 | flips exactly the byte at `y * w + x` (0 to 1, 1 to 0) when that index is in the buffer, which holds for every `x < w`, `y < h`; panics (board untouched) exactly when the index is past the end; `board_next` never changes; a reachable state stays reachable |
| LifeState.State.CountWindow | src/state.rs:86-93 | the two inner loops count the live cells of the 3x3 window, column by column as they run, which is the live count of its nine cells |
| LifeState.State.CellRule | src/state.rs:94-111 | the body for cell (i, j): no result (panic) exactly when the byte is not 0 or 1, otherwise the rule's value for that cell |
| LifeState.State.CheckNeighbours | src/state.rs:80-114 | check_neighbours never changes `board`; it panics exactly when some cell is neither 0 nor 1; without a panic `board_next` is the next generation; with one, `board_next` is `Panicked` at the step that met the bad byte |
| LifeState.State.CheckColumn | src/state.rs:84-112 | one turn of the outer loop continues the pass over column i, or stops in `Panicked` at the bad step |
| LifeState.State.UpdateState | src/state.rs:116-124 | afterwards `board` equals `board_next`, and `board_next` is unchanged |
| LifeState.State.Randomize | src/state.rs:126-136 | afterwards `board` is the random board of the draws and `board_next` equals it |
| LifeState.State.Tick | src/state.rs:142-145 | when paused nothing changes; otherwise it panics exactly when the board holds a byte other than 0 or 1 (with `board` untouched), and else `board` becomes the next generation and `board_next` equals it; from a reachable state it never panics and the state stays reachable |
| LifeState.State.Update | src/state.rs:140-148 | when paused both buffers are unchanged; on a board of 0s and 1s `ticks` steps give `Generations(board, ticks)` with no panic; on a board with another byte the first step panics and `board` is unchanged; with no ticks neither buffer changes; from a reachable state it never panics and stays reachable |
| LifeState.State.KeyDown | src/state.rs:179-192 | quits exactly on Escape; flips `paused` exactly on Space; on the 5 key both buffers become the random board; on every other key neither buffer changes; a reachable state stays reachable |

## Left out

- Rendering is not modelled: the `rects`, `meshes_alive` and `meshes_dead` vectors, the mesh construction in `new` (src/state.rs:34-43 and 50-70) and `draw` (src/state.rs:150-177). They are graphics calls into ggez.
- The framework calls are not modelled. `timer::check_update_time` becomes the `ticks` parameter of `Update`, `event::quit` becomes the result of `KeyDown`, and the `Context` argument is dropped. The window setup in src/main.rs is not part of this model.
- `mouse_button_down_event` (src/state.rs:194-204) is not modelled. It converts pixel positions through `f32`. `ToggleCell` takes the cell coordinates that conversion produces.
- `rand::thread_rng` becomes the input `bits`: one `bool` per draw, in the order the loops draw them.
- The process abort of `panic!` is not modelled. A panic is a returned value, and the methods after it do not run.
- LifeState.State.Update: after a panic it stops looping instead of ending the program. The states it reports after a panic are those at the panic.
- LifeState.State.CellRule: it returns the final value of `board_next[coords]`. In the source, a live cell's branch writes 1 and then possibly 0 into `board_next[coords]`, and a dead cell's branch writes 0 and then possibly 1. Nothing reads the cell between the two writes, so only the second is observable.
- Rust's `i32` and `usize` widths are not modelled as wrap-around. `Valid` keeps `w * h + w + h` within `i32::MAX`, so no index expression of check_neighbours, update_state or randomize overflows. The model computes with unbounded integers under that bound.
- LifeState.State.ToggleCell: `y * W + x` (src/state.rs:77) is `usize` arithmetic on unbounded `x` and `y`, and the model computes it unbounded. An index of `2^64` or more is reported as `outOfBounds`, which is what an overflow-checked build does (it panics on the overflow). A build without overflow checks wraps the index instead and may flip a cell inside the board; that is not modelled.
- `GRID_CELL_SIZE`, `SCREEN_SIZE` and `DESIRED_FPS` from src/main.rs are not part of this model.
