/** The program's global state and the procedures that change it: the game
    state, the framebuffer and its two colours; `clear`, `point`, the
    paint-then-advance part of `render`, `update_game_state`, and the
    `init_*` stamps. */
module Simulation {
  import opened Toroid
  import opened Rules
  import opened Patterns
  import opened Frame

  /** The simulation on a `W`×`H` torus (100×100 in the program). */
  class Game {
    const W: int
    const H: int
    var gameState: Grid
    var framebuffer: array<Color>
    var clearColor: Color
    var currentColor: Color

    ghost predicate Valid()
      reads this
    {
      IsGrid(gameState, W, H) && framebuffer.Length == W * H
    }

    /** The program's initial globals: every cell dead, a zero-filled
        framebuffer, black to clear with and white to draw with. */
    constructor (w: int, h: int)
      requires w > 0 && h > 0
      ensures Valid() && W == w && H == h && fresh(framebuffer)
      ensures forall x, y :: 0 <= x < W && 0 <= y < H ==> !gameState[x][y]
      ensures forall i :: 0 <= i < framebuffer.Length ==> framebuffer[i] == Zero
      ensures clearColor == Black && currentColor == White
    {
      W, H := w, h;
      gameState := seq(w, _ => seq(h, _ => false));
      framebuffer := new Color[w * h](_ => Zero);
      clearColor, currentColor := Black, White;
    }

    // -------------------------------------------------------------------
    // Framebuffer
    // -------------------------------------------------------------------

    /** `clear`: every pixel gets the clear colour. */
    method Clear()
      requires Valid()
      modifies framebuffer
      ensures Valid()
      ensures forall i :: 0 <= i < framebuffer.Length ==> framebuffer[i] == clearColor
    {
      for i := 0 to W * H
        invariant forall j :: 0 <= j < i ==> framebuffer[j] == clearColor
      {
        framebuffer[i] := clearColor;
      }
    }

    /** `point`: paints pixel `y * W + x` with the current colour when `(x, y)`
        is on the grid, and does nothing otherwise. */
    method Point(x: int, y: int)
      requires Valid()
      modifies framebuffer
      ensures Valid()
      ensures 0 <= x < W && 0 <= y < H ==>
        0 <= y * W + x < W * H && framebuffer[..] == old(framebuffer[..])[y * W + x := currentColor]
      ensures !(0 <= x < W && 0 <= y < H) ==> framebuffer[..] == old(framebuffer[..])
    {
      if x >= 0 && x < W && y >= 0 && y < H {
        PixelIndex(W, H, x, y);
        framebuffer[y * W + x] := currentColor;
      }
    }

    /** `render` up to the texture upload: clear, paint every live cell, then
        advance one generation.  The picture shows the state from before the
        step. */
    method Render()
      requires Valid()
      modifies this`gameState, framebuffer
      ensures Valid()
      ensures framebuffer[..] == Picture(old(gameState), W, H, clearColor, currentColor)
      ensures gameState == Next(old(gameState), W, H)
    {
      Clear();
      assert framebuffer[..] == Painted(gameState, W, H, 0, clearColor, currentColor);
      ghost var g := gameState;
      for y := 0 to H
        invariant gameState == g
        invariant framebuffer[..] == Painted(g, W, H, y * W, clearColor, currentColor)
      {
        for x := 0 to W
          invariant gameState == g
          invariant framebuffer[..] == Painted(g, W, H, y * W + x, clearColor, currentColor)
        {
          PaintedStep(g, W, H, clearColor, currentColor, x, y);
          if gameState[x][y] {
            Point(x, y);
          }
        }
        assert y * W + W == (y + 1) * W;
      }
      assert H * W == W * H;
      UpdateGameState();
    }

    // -------------------------------------------------------------------
    // Generation step
    // -------------------------------------------------------------------

    /** `update_game_state`: copy the state, decide every cell from the
        untouched original, and swap the copy in.  The result is the next
        generation whatever the scan order. */
    method UpdateGameState()
      requires Valid()
      modifies this`gameState
      ensures Valid()
      ensures gameState == Next(old(gameState), W, H)
    {
      var g := gameState;
      ghost var next := Next(g, W, H);
      var newState := g;
      AdvanceEnds(g, next, W, H);
      for y := 0 to H
        invariant newState == PartlyAdvanced(g, next, W, H, y, 0)
      {
        for x := 0 to W
          invariant newState == PartlyAdvanced(g, next, W, H, y, x)
        {
          var n := CountNeighbours(g, W, H, x, y);
          AdvanceStep(g, next, W, H, y, x);
          assert next[x][y] == NextCell(g[x][y], n);
          if g[x][y] && (n < 2 || n > 3) {
            newState := newState[x := newState[x][y := false]];
          } else if !g[x][y] && n == 3 {
            newState := newState[x := newState[x][y := true]];
          }
        }
        AdvanceRow(g, next, W, H, y);
      }
      gameState := newState;
    }

    // -------------------------------------------------------------------
    // Pattern stamps
    // -------------------------------------------------------------------

    /** The loop every `init_*` shares: for `dy` below `h` and `dx` below `w`,
        write `m[dx][dy]` at `((x + dx) % W, (y + dy) % H)`.  The corner must
        not be negative (`%` would give a negative index) and the mask must
        fit in the grid. */
    method Stamp(m: Grid, w: int, h: int, x: int, y: int)
      requires Valid() && Covers(m, w, h) && w <= W && h <= H && x >= 0 && y >= 0
      modifies this`gameState
      ensures Valid()
      ensures gameState == Stamped(old(gameState), W, H, m, w, h, x, y)
    {
      ghost var g := gameState;
      StampEnds(g, W, H, m, w, h, x, y);
      for dy := 0 to h
        invariant gameState == PartlyStamped(g, W, H, m, w, h, x, y, dy, 0)
      {
        for dx := 0 to w
          invariant gameState == PartlyStamped(g, W, H, m, w, h, x, y, dy, dx)
        {
          StampStep(g, W, H, m, w, h, x, y, dy, dx);
          var i, j := Coord(x, dx, W), Coord(y, dy, H);
          gameState := gameState[i := gameState[i][j := m[dx][dy]]];
        }
        StampRow(g, W, H, m, w, h, x, y, dy);
      }
    }

    /** `init_glider`: the 3×3 glider mask at `(x, y)`. */
    method InitGlider(x: int, y: int)
      requires Valid() && 3 <= W && 3 <= H && x >= 0 && y >= 0
      modifies this`gameState
      ensures Valid()
      ensures gameState == Stamped(old(gameState), W, H, GliderPattern, 3, 3, x, y)
    {
      Stamp(GliderPattern, 3, 3, x, y);
    }

    /** `init_block`: the 2×2 block at `(x, y)`. */
    method InitBlock(x: int, y: int)
      requires Valid() && 2 <= W && 2 <= H && x >= 0 && y >= 0
      modifies this`gameState
      ensures Valid()
      ensures gameState == Stamped(old(gameState), W, H, BlockPattern, 2, 2, x, y)
    {
      Stamp(BlockPattern, 2, 2, x, y);
    }

    /** `init_blinker` as written: three cells in row `y`, the column wrapped
        and the row not.  Only a row inside the grid keeps the write in range;
        there it agrees with the wrapped 3×1 stamp. */
    method InitBlinkerAsWritten(x: int, y: int)
      requires Valid() && 3 <= W && x >= 0 && 0 <= y < H
      modifies this`gameState
      ensures Valid()
      ensures gameState == Stamped(old(gameState), W, H, BlinkerColumns, 3, 1, x, y)
    {
      ghost var g := gameState;
      StampEnds(g, W, H, BlinkerColumns, 3, 1, x, y);
      DivModUnique(y, H, 0, y);
      for dx := 0 to 3
        invariant gameState == PartlyStamped(g, W, H, BlinkerColumns, 3, 1, x, y, 0, dx)
      {
        StampStep(g, W, H, BlinkerColumns, 3, 1, x, y, 0, dx);
        var i := Coord(x, dx, W);
        gameState := gameState[i := gameState[i][y := BlinkerPattern[dx]]];
      }
      StampRow(g, W, H, BlinkerColumns, 3, 1, x, y, 0);
    }

    /** `init_blinker` with the row wrapped like every other stamp: the 3×1
        blinker at `(x, y)` for any corner with non-negative coordinates. */
    method InitBlinker(x: int, y: int)
      requires Valid() && 3 <= W && x >= 0 && y >= 0
      modifies this`gameState
      ensures Valid()
      ensures gameState == Stamped(old(gameState), W, H, BlinkerColumns, 3, 1, x, y)
    {
      Stamp(BlinkerColumns, 3, 1, x, y);
    }

    /** `init_toad`: the only stamp that reads its mask as `[dy][dx]`, so the
        two literal rows of four are screen rows: 4 wide, 2 high. */
    method InitToad(x: int, y: int)
      requires Valid() && 4 <= W && 2 <= H && x >= 0 && y >= 0
      modifies this`gameState
      ensures Valid()
      ensures gameState == Stamped(old(gameState), W, H, Transpose(ToadPattern, 4, 2), 4, 2, x, y)
    {
      Stamp(Transpose(ToadPattern, 4, 2), 4, 2, x, y);
    }

    /** `init_tub`: the 3×3 tub at `(x, y)`. */
    method InitTub(x: int, y: int)
      requires Valid() && 3 <= W && 3 <= H && x >= 0 && y >= 0
      modifies this`gameState
      ensures Valid()
      ensures gameState == Stamped(old(gameState), W, H, TubPattern, 3, 3, x, y)
    {
      Stamp(TubPattern, 3, 3, x, y);
    }

    /** `init_pulsar`: build the 17×17 mask, then stamp it at `(x, y)`. */
    method InitPulsar(x: int, y: int)
      requires Valid() && 17 <= W && 17 <= H && x >= 0 && y >= 0
      modifies this`gameState
      ensures Valid()
      ensures gameState == Stamped(old(gameState), W, H, PulsarPattern, 17, 17, x, y)
    {
      var p := BuildPulsar();
      PulsarShape();
      Stamp(p, 17, 17, x, y);
    }

    /** `init_middleweight_spaceship` with the mask read as `[dy][dx]`, as
        `init_toad` reads its own: the same loop bounds (6 wide, 5 high) then
        stay inside the five rows of six. */
    method InitMiddleweightSpaceship(x: int, y: int)
      requires Valid() && 6 <= W && 5 <= H && x >= 0 && y >= 0
      modifies this`gameState
      ensures Valid()
      ensures gameState == Stamped(old(gameState), W, H, Transpose(MwsPattern, 6, 5), 6, 5, x, y)
    {
      Stamp(Transpose(MwsPattern, 6, 5), 6, 5, x, y);
    }

    /** `init_beacon`: the 4×4 beacon at `(x, y)`. */
    method InitBeacon(x: int, y: int)
      requires Valid() && 4 <= W && 4 <= H && x >= 0 && y >= 0
      modifies this`gameState
      ensures Valid()
      ensures gameState == Stamped(old(gameState), W, H, BeaconPattern, 4, 4, x, y)
    {
      Stamp(BeaconPattern, 4, 4, x, y);
    }

    /** `init_loaf`: the 4×4 loaf at `(x, y)`. */
    method InitLoaf(x: int, y: int)
      requires Valid() && 4 <= W && 4 <= H && x >= 0 && y >= 0
      modifies this`gameState
      ensures Valid()
      ensures gameState == Stamped(old(gameState), W, H, LoafPattern, 4, 4, x, y)
    {
      Stamp(LoafPattern, 4, 4, x, y);
    }

    /** `init_boat`: the 3×3 boat at `(x, y)`. */
    method InitBoat(x: int, y: int)
      requires Valid() && 3 <= W && 3 <= H && x >= 0 && y >= 0
      modifies this`gameState
      ensures Valid()
      ensures gameState == Stamped(old(gameState), W, H, BoatPattern, 3, 3, x, y)
    {
      Stamp(BoatPattern, 3, 3, x, y);
    }

    /** `init_ship`: the 3×3 ship at `(x, y)`. */
    method InitShip(x: int, y: int)
      requires Valid() && 3 <= W && 3 <= H && x >= 0 && y >= 0
      modifies this`gameState
      ensures Valid()
      ensures gameState == Stamped(old(gameState), W, H, ShipPattern, 3, 3, x, y)
    {
      Stamp(ShipPattern, 3, 3, x, y);
    }
  }
}
