# Game of Life on a torus: a verified model

This project models the simulation core of a small C++/SDL program that runs
Conway's Game of Life on a 100×100 toroidal grid. The program keeps three
global pieces of state:

- `game_state`: a vector of W columns of H booleans, indexed `[x][y]`;
- `framebuffer`: a flat array of W·H `Color` pixels;
- two colours, `clearColor` and `currentColor`.

The model is the class `Simulation.Game`. Its fields are that state: a
`seq<seq<bool>>` that the methods reassign and an `array<Color>` written in
place. Its methods follow the program's procedures loop for loop:

- `update_game_state` is `UpdateGameState`, with the neighbour loop in
  `Rules.CountNeighbours`.
- The paint-then-advance part of `render` is `Render`, built on `clear` and
  `point`, which are `Clear` and `Point`.
- The eleven `init_*` pattern stamps are `Init*`, which share one loop, `Stamp`,
  except `InitBlinkerAsWritten`, which keeps the source's single `dx` loop;
  `init_blinker` has two models, as written and corrected.

Each method is proved against a pure specification:

- `Rules.Next` is the B3/S23 generation.
- `Patterns.Stamped` is the grid a stamp leaves behind.
- `Frame.Picture` is the framebuffer image of a grid.

Lemmas state what those specifications mean: the rule cell by cell, the
count as the sum over the eight neighbour offsets, the footprint overwrite and nothing else,
pixel `y*W+x` against cell `(x, y)`, and the pulsar's shape.

W and H are parameters of the model; the program fixes both at 100. C++ integer
division truncates the quotient toward zero, so `%` gives a remainder with
the sign of the dividend; `Toroid.CRem` models that, apart from Dafny's
Euclidean `%`, whose remainder is never negative.

Modules, one per file: `Toroid` (grid shape, C++ remainder, wrapped
neighbour count), `Rules` (rule and generation step), `Patterns` (masks and
stamping), `Frame` (colours and pixel layout), `Simulation` (the stateful
class).

## Model

| member | source | states |
|---|---|---|
| Toroid.CRem | src/main.cpp:78-79 | C++ `a % n` for `n > 0`: `a == n * (a / n) + a % n` with the quotient rounded toward zero, so the remainder is congruent to `a` mod `n`; it equals the Euclidean remainder for `a >= 0` and lies in `(-n, 0]` for `a < 0` |
| Toroid.CQuot | src/main.cpp:78-79 | C++ `a / n` for `n > 0` rounds toward zero: for `a >= 0` it is the non-negative `q` with `q * n <= a < q * n + n`, for `a < 0` the non-positive `q` with `a <= q * n < a + n` |
| Toroid.CRemOfMinusOne | src/main.cpp:121 | `-1 % n` is `-1`: a negative operand gives a negative index |
| Toroid.WrapStep | src/main.cpp:78-79 | `(c + d + n) % n`, for `c` in range and `d` in -1..1, is in range and is the mathematical `(c + d) mod n`; past either edge it is the opposite edge |
| Toroid.Live | src/main.cpp:78-80 | the 0/1 term the loop adds is 1 exactly when the wrapped neighbour `g[(x+dx) mod W][(y+dy) mod H]` is alive |
| Toroid.RowScan | src/main.cpp:76-80 | the inner loop's partial sum over one row of offsets is at most the number of offsets visited |
| Toroid.ScanCount | src/main.cpp:75-81 | the outer loop's partial sum is at most three per finished row |
| Toroid.Neighbours | src/main.cpp:74-81 | the neighbour count lies in 0..8 |
| Toroid.NeighboursAsRing | src/main.cpp:75-81 | the count sums the wrapped cell at each of the eight offsets at Chebyshev distance 1 once, the offset (0, 0) excluded |
| Rules.CountNeighbours | src/main.cpp:74-81 | the nested `dy`/`dx` loop with its `continue` on the centre returns the neighbour count, at most 8 |
| Rules.ScanStep | src/main.cpp:77-80 | one turn of the inner loop adds 1 exactly when the cell at `((x+dx+W)%W, (y+dy+H)%H)` is alive, both indices in range, and adds nothing at offset (0, 0) |
| Rules.NextCell | src/main.cpp:83-87 | the branch cascade (death under 2 or over 3, birth at exactly 3, otherwise the copied old value) is B3/S23: alive next iff 3 neighbours, or 2 and alive now |
| Rules.Next | src/main.cpp:70-91 | the next generation keeps the W×H shape, and each cell is alive iff it has 3 live neighbours in the old grid, or 2 and was alive |
| Rules.NextRule | src/main.cpp:83-87 | the four cases of the rule for one cell: death by under- or over-population, survival with 2 or 3, birth with 3, dead cell stays dead otherwise |
| Rules.DeadStaysDead | src/main.cpp:70-91 | nothing is born from nothing: an all-dead grid is a fixed point of the step |
| Rules.AdvanceStep | src/main.cpp:83-87 | visiting one cell sets exactly that cell of the new state to its next value; when that value equals the copied one, the new state is unchanged |
| Rules.AdvanceRow | src/main.cpp:72-73 | a finished row of the scan is the start of the next one |
| Rules.AdvanceEnds | src/main.cpp:71-90 | the scan starts from the copy of the old state and ends at the next generation |
| Patterns.BuildPulsar | src/main.cpp:167-177 | the mask-building loop yields exactly the pulsar mask, entry for entry |
| Patterns.PulsarShape | src/main.cpp:166-177 | the pulsar's live cells are exactly lines 2, 7, 9, 14 crossed with 4..6 and 10..12, in either direction, and the mask equals its transpose |
| Patterns.WrappedOffset | src/main.cpp:121 | for a corner `x >= 0`, the written index `(x + d) % n` lies `d` steps past `x` around the torus |
| Patterns.WrappedOffsetUnique | src/main.cpp:121 | a cell `d` steps past `x` is that written index, so each offset writes one cell |
| Patterns.Stamped | src/main.cpp:119-123 | the stamped grid keeps the W×H shape |
| Patterns.StampStep | src/main.cpp:121 | one write of the stamp loop sets the cell at the wrapped coordinates to `m[dx][dy]` and nothing else, and those coordinates are in range |
| Patterns.StampRow | src/main.cpp:119-120 | a finished mask row is the start of the next |
| Patterns.StampEnds | src/main.cpp:119-123 | the stamp loop starts from the old grid and ends at the stamped grid |
| Patterns.Footprint | src/main.cpp:119-123 | the set of cells `((x+dx)%W, (y+dy)%H)` a stamp writes; with a corner at non-negative coordinates every one is a valid index |
| Patterns.StampedFootprint | src/main.cpp:119-123 | after a stamp, cell `((x+dx)%W, (y+dy)%H)` holds `m[dx][dy]`, dead entries included |
| Patterns.StampedOutside | src/main.cpp:119-123 | after a stamp, every cell outside the footprint keeps its old value |
| Patterns.StampIdempotent | src/main.cpp:119-123 | stamping the same mask twice at the same corner is the same as stamping once |
| Patterns.ToadStampReadsRows | src/main.cpp:145-152 | after the toad stamp, the cell `dx` columns and `dy` rows past the corner holds `toad_pattern[dy][dx]` of the literal |
| Patterns.MwsStampReadsRows | src/main.cpp:187-197 | after the corrected spaceship stamp, the cell `dx` columns and `dy` rows past the corner holds `mws_pattern[dy][dx]` of the literal, for the whole 6×5 loop |
| Patterns.MasksFitTheirLoops | src/main.cpp:113-243 | the mask literals cover the reads their loops make: glider, tub, boat, ship 3×3; block 2×2; beacon, loaf 4×4; blinker 3; the toad literal read `[dy][dx]` as :150 does; pulsar 17×17; the spaceship literal only under the corrected `[dy][dx]` reading (the `[dx][dy]` reads of :196 do not fit, see `MwsAsWrittenReadsPastMask`) |
| Patterns.NegativeCornerLeavesGrid | src/main.cpp:121 | a corner at `x == -1` makes the stamp write column -1, outside the 100×100 state |
| Patterns.BlinkerFootprintAsWritten | src/main.cpp:139-141 | the cells `init_blinker` writes all lie in row `y`, unwrapped; for `0 <= y < H` they are exactly the wrapped 3×1 stamp's cells |
| Patterns.BlinkerAsWrittenLeavesGrid | src/main.cpp:139-141 | `init_blinker(10, 100)` writes row 100, past the last row, where the wrapped 3×1 stamp stays in range |
| Patterns.MwsAsWrittenReadsPastMask | src/main.cpp:187-197 | the spaceship mask has 5 rows but the loop reads `mws_pattern[dx]` for `dx` up to 5; read `[dy][dx]` the same bounds fit |
| Frame.PixelIndex | src/main.cpp:40-41 | pixel `y*W+x` of an in-range cell is inside the buffer and gives back `x` by `% W` and `y` by `/ W` |
| Frame.PixelCell | src/main.cpp:98-99 | every pixel index belongs to a cell of the grid |
| Frame.Painted | src/main.cpp:95-104 | the buffer part-way through the drawing loop has W·H pixels |
| Frame.Picture | src/main.cpp:95-104 | the buffer after the whole drawing loop has W·H pixels; `Frame.PictureAt` gives each pixel |
| Frame.PictureAt | src/main.cpp:95-104 | after drawing, pixel `y*W+x` is the current colour when cell `(x, y)` is alive and the clear colour when it is dead; with distinct colours, current iff alive |
| Frame.PaintedStep | src/main.cpp:100-102 | visiting cell `(x, y)` paints pixel `y*W+x` when the cell is alive and leaves the buffer alone otherwise |
| Simulation.Game.constructor | src/main.cpp:20-29 | every cell dead, a zero framebuffer of W·H pixels, black clear colour, white current colour |
| Simulation.Game.Clear | src/main.cpp:32-36 | every one of the W·H pixels becomes the clear colour |
| Simulation.Game.Point | src/main.cpp:39-43 | in range, only pixel `y*W+x` changes, to the current colour; out of range, nothing changes |
| Simulation.Game.Render | src/main.cpp:93-107 | the framebuffer is the picture of the state from before the step, and the state then becomes its next generation |
| Simulation.Game.UpdateGameState | src/main.cpp:70-91 | the double-buffered scan leaves the state equal to `Next` of the old state, W×H, whatever the scan order |
| Simulation.Game.Stamp | src/main.cpp:119-123 | the shared stamp loop leaves the state equal to `Stamped` of the old state |
| Simulation.Game.InitGlider | src/main.cpp:113-124 | the glider mask stamped 3×3 at `(x, y)` |
| Simulation.Game.InitBlock | src/main.cpp:126-134 | the block mask stamped 2×2 |
| Simulation.Game.InitBlinkerAsWritten | src/main.cpp:136-142 | the loop as written (column wrapped, row not) is in range only for `0 <= y < H`, and there equals the wrapped 3×1 stamp |
| Simulation.Game.InitBlinker | src/main.cpp:136-142 | the blinker as a wrapped 3×1 stamp, for any non-negative corner |
| Simulation.Game.InitToad | src/main.cpp:144-153 | the toad mask read `[dy][dx]`, stamped 4 wide and 2 high |
| Simulation.Game.InitTub | src/main.cpp:155-164 | the tub mask stamped 3×3 |
| Simulation.Game.InitPulsar | src/main.cpp:166-184 | the built pulsar mask stamped 17×17 |
| Simulation.Game.InitMiddleweightSpaceship | src/main.cpp:186-199 | corrected: the spaceship mask read `[dy][dx]` instead of the program's `[dx][dy]`, stamped 6 wide and 5 high, every read in range |
| Simulation.Game.InitBeacon | src/main.cpp:201-210 | the beacon mask stamped 4×4 |
| Simulation.Game.InitLoaf | src/main.cpp:212-221 | the loaf mask stamped 4×4 |
| Simulation.Game.InitBoat | src/main.cpp:223-232 | the boat mask stamped 3×3 |
| Simulation.Game.InitShip | src/main.cpp:234-243 | the ship mask stamped 3×3 |

## Left out

- `renderBuffer` (src/main.cpp:45-68): the SDL texture creation and upload are foreign library calls with no logic of their own.
- `main` (src/main.cpp:245-290): the window, renderer, event polling, `SDL_RenderPresent` and the 60 Hz `SDL_Delay` are platform plumbing and real-time pacing. The fixed seed sequence at :259-265 is not modelled as a method. Each call in it is an `Init*` method here; the spaceship call at (50, 80) is the out-of-range read under Findings.
- Colours: the ABGR8888 byte layout of `Color` and the window-size constants are not modelled. `Color` is a value with equality.
- Simulation.Game.Stamp and every `Init*` method require the mask to fit in the grid (`w <= W`, `h <= H`). With a larger mask, overlapping wrapped writes would overwrite each other in scan order. The program's 100×100 grid meets this for every mask.
- Simulation.Game.Stamp and every `Init*` method require `x >= 0` and `y >= 0`. For a negative corner the program indexes out of bounds, which is undefined behaviour (see `Patterns.NegativeCornerLeavesGrid`).
- Long-run pattern behaviour is not proved: glider translation, the pulsar's period, and the still life or period of concrete blocks and blinkers. Evaluating the neighbour count cell by cell on concrete grids is beyond what the verifier proves in reasonable time on concrete grids. Only the general all-dead fixed point (`Rules.DeadStaysDead`) is proved.
- Simulation.Game.Stamp and every `Init*` method use unbounded integers: C++ `int` overflows in `x + dx` (and `y + dy`) for a corner within the mask's size of 2147483647, which is undefined behaviour the model does not capture.

## Findings

| source | as written | input that shows it | evidently intended | confidence | as-written member | corrected member |
|---|---|---|---|---|---|---|
| src/main.cpp:194-196 | loops `dx` to 5 and `dy` to 4 but reads `mws_pattern[dx][dy]`, and the mask has 5 rows of 6 | any call, e.g. `init_middleweight_spaceship(50, 80)`: the read `mws_pattern[5][0]` is past the last row | read `mws_pattern[dy][dx]`, as `init_toad` does, so the 6×5 loop bounds match the 5 rows of 6 | not executed | Patterns.MwsAsWrittenReadsPastMask | Simulation.Game.InitMiddleweightSpaceship |
| src/main.cpp:140 | writes row `y` unwrapped while every other stamp wraps it with `% FRAMEBUFFER_HEIGHT` | `init_blinker(10, 100)` writes `game_state[10][100]`, one past the last row (`Patterns.BlinkerAsWrittenLeavesGrid`) | write row `y % FRAMEBUFFER_HEIGHT` like the other stamps | not executed | Simulation.Game.InitBlinkerAsWritten | Simulation.Game.InitBlinker |
