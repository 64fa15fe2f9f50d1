/** The framebuffer the game state is painted into: one pixel per cell, laid
    out row after row, so cell `(x, y)` is pixel `y * W + x`. */
module Frame {
  import opened Toroid

  /** A pixel colour.  Only equality of colours matters here; the byte order
      of the texture format is not modelled. */
  datatype Color = Color(r: bv8, g: bv8, b: bv8, a: bv8)

  /** The initial `clearColor`. */
  const Black: Color := Color(0, 0, 0, 255)

  /** The initial `currentColor`. */
  const White: Color := Color(255, 255, 255, 255)

  /** The value of a zero-initialised `Color` (the framebuffer before the
      first frame). */
  const Zero: Color := Color(0, 0, 0, 0)

  /** Cell `(x, y)` of a `W`×`H` grid has a pixel in the flat buffer, and that
      pixel's index `y * W + x` gives back `x` and `y` by `%` and `/`. */
  lemma PixelIndex(W: int, H: int, x: int, y: int)
    requires 0 <= x < W && 0 <= y < H
    ensures 0 <= y * W + x < W * H
    ensures (y * W + x) % W == x && (y * W + x) / W == y
  {
    DivModUnique(y * W + x, W, y, x);
    assert W * H == y * W + (H - y) * W;
    MulAtLeast(H - y, W);
  }

  /** Every pixel index of the buffer belongs to a cell of the grid. */
  lemma PixelCell(W: int, H: int, i: int)
    requires W > 0 && H > 0 && 0 <= i < W * H
    ensures 0 <= i % W < W && 0 <= i / W < H
  {
    var q := i / W;
    assert i == q * W + i % W;
    if q >= H {
      assert false;
    }
  }

  /** The framebuffer once the drawing loop of `render`, starting from a
      cleared buffer, has visited the first `k` pixels in its scan order
      (`y` outer, `x` inner): a visited pixel whose cell is alive has
      `current`, every other pixel `clear`. */
  function Painted(g: Grid, W: int, H: int, k: int, clear: Color, current: Color): (f: seq<Color>)
    requires IsGrid(g, W, H)
    ensures |f| == W * H
  {
    seq(W * H, i requires 0 <= i < W * H =>
      PixelCell(W, H, i);
      if i < k && g[i % W][i / W] then current else clear)
  }

  /** The complete picture of `g`. */
  function Picture(g: Grid, W: int, H: int, clear: Color, current: Color): (f: seq<Color>)
    requires IsGrid(g, W, H)
    ensures |f| == W * H
  {
    Painted(g, W, H, W * H, clear, current)
  }

  /** Pixel `y * W + x` of the picture has the current colour when cell
      `(x, y)` is alive and the clear colour when it is dead. */
  lemma PictureAt(g: Grid, W: int, H: int, clear: Color, current: Color, x: int, y: int)
    requires IsGrid(g, W, H) && 0 <= x < W && 0 <= y < H
    ensures 0 <= y * W + x < W * H
    ensures Picture(g, W, H, clear, current)[y * W + x] == if g[x][y] then current else clear
    ensures current != clear ==> (Picture(g, W, H, clear, current)[y * W + x] == current <==> g[x][y])
  {
    PixelIndex(W, H, x, y);
  }

  /** Visiting cell `(x, y)`, pixel `k == y * W + x`, paints that pixel when
      the cell is alive and leaves the buffer alone otherwise. */
  lemma PaintedStep(g: Grid, W: int, H: int, clear: Color, current: Color, x: int, y: int)
    requires IsGrid(g, W, H) && 0 <= x < W && 0 <= y < H
    ensures 0 <= y * W + x < W * H
    ensures var k := y * W + x;
      Painted(g, W, H, k + 1, clear, current)
        == if g[x][y] then Painted(g, W, H, k, clear, current)[k := current]
           else Painted(g, W, H, k, clear, current)
  {
    PixelIndex(W, H, x, y);
  }
}
