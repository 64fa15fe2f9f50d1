/** The toroidal cell matrix of the simulation.

    The game state is a vector of W columns, each a vector of H cells, indexed
    `g[x][y]`.  Neighbour lookups wrap around both edges, so the grid has no
    border.  This module also fixes the one piece of C++ arithmetic the rest of
    the model depends on: the remainder operator `%`. */
module Toroid {

  /** The game state as the program stores it: `g[x][y]` is the cell in column
      `x`, row `y`; `true` means alive. */
  type Grid = seq<seq<bool>>

  /** `g` is a non-empty torus of `W` columns with `H` cells each. */
  predicate IsGrid(g: Grid, W: int, H: int)
  {
    W > 0 && H > 0 && |g| == W && forall x :: 0 <= x < W ==> |g[x]| == H
  }

  /** Two grids of the same shape that agree on every cell are equal. */
  lemma GridExt(a: Grid, b: Grid, W: int, H: int)
    requires IsGrid(a, W, H) && IsGrid(b, W, H)
    requires forall x, y :: 0 <= x < W && 0 <= y < H ==> a[x][y] == b[x][y]
    ensures a == b
  {
    forall x | 0 <= x < W
      ensures a[x] == b[x]
    {
      assert forall y :: 0 <= y < H ==> a[x][y] == b[x][y];
    }
  }

  // ---------------------------------------------------------------------
  // Integer division facts (Dafny's `/` and `%` are Euclidean)
  // ---------------------------------------------------------------------

  /** Quotient and remainder are determined by any decomposition
      `a == q * n + r` with `0 <= r < n`. */
  lemma {:induction false} DivModUnique(a: int, n: int, q: int, r: int)
    requires n > 0 && 0 <= r < n && a == q * n + r
    ensures a / n == q && a % n == r
  {
    var q', r' := a / n, a % n;
    assert a == q' * n + r';
    assert (q - q') * n == r' - r;
    if q > q' {
      assert (q - q') * n >= n by {
        MulAtLeast(q - q', n);
      }
    } else if q < q' {
      assert (q' - q) * n >= n by {
        MulAtLeast(q' - q, n);
      }
    }
  }

  lemma MulAtLeast(k: int, n: int)
    requires k >= 1 && n > 0
    ensures k * n >= n
  {
    assert k * n == (k - 1) * n + n;
  }

  // ---------------------------------------------------------------------
  // C++ remainder
  // ---------------------------------------------------------------------

  /** C++'s `a % n` for a positive divisor.  The quotient truncates toward
      zero, so the remainder takes the sign of `a`: it agrees with the
      mathematical remainder for `a >= 0` and is never positive for `a < 0`.
      Either way it differs from `a` by a multiple of `n`, and that together
      with its range fixes it: `a == n * (a / n) + a % n` with `a / n`
      rounded toward zero. */
  function CRem(a: int, n: int): (r: int)
    requires n > 0
    ensures a >= 0 ==> 0 <= r < n && r == a % n
    ensures a < 0 ==> -n < r <= 0
    ensures (a - r) % n == 0
    ensures a == n * CQuot(a, n) + r
  {
    if a >= 0 then
      DivModUnique(a, n, a / n, a % n);
      DivModUnique(a - a % n, n, a / n, 0);
      a % n
    else
      var q := (-a) / n;
      DivModUnique(-a, n, q, (-a) % n);
      DivModUnique(a + (-a) % n, n, -q, 0);
      -((-a) % n)
  }

  /** C++'s `a / n` for a positive divisor: the quotient rounded toward zero. */
  function CQuot(a: int, n: int): (q: int)
    requires n > 0
    ensures a >= 0 ==> 0 <= q && q * n <= a < q * n + n
    ensures a < 0 ==> q <= 0 && a <= q * n < a + n
  {
    if a >= 0 then
      DivBounds(a, n);
      a / n
    else
      DivBounds(-a, n);
      NegMul((-a) / n, n);
      -((-a) / n)
  }

  /** Euclidean division of a non-negative number stays non-negative and
      below it. */
  lemma DivBounds(a: int, n: int)
    requires a >= 0 && n > 0
    ensures 0 <= a / n && (a / n) * n <= a
  {
    var q := a / n;
    assert a == q * n + a % n;
    if q < 0 {
      MulAtLeast(-q, n);
      NegMul(q, n);
    }
  }

  lemma NegMul(q: int, n: int)
    ensures (-q) * n == -(q * n)
  {
  }

  /** A negative operand gives a negative remainder: with the program's
      `(x + dx) % W`, a corner at `x == -1` yields the column index -1. */
  lemma CRemOfMinusOne(n: int)
    requires n > 1
    ensures CRem(-1, n) == -1
  {
    DivModUnique(1, n, 0, 1);
  }

  /** The wrapped neighbour coordinate `(c + d + n) % n` that
      `update_game_state` computes for a cell `c` in range and a step `d` of
      at most one: it lies in range and is the mathematical `(c + d) mod n`,
      so the cell past either edge is the one on the opposite edge. */
  function WrapStep(c: int, d: int, n: int): (r: int)
    requires n > 0 && 0 <= c < n && -1 <= d <= 1
    ensures 0 <= r < n
    ensures r == (c + d) % n
    ensures c + d == -1 ==> r == n - 1
    ensures c + d == n ==> r == 0
    ensures 0 <= c + d < n ==> r == c + d
  {
    var r := CRem(c + d + n, n);
    if c + d == -1 then
      DivModUnique(c + d + n, n, 0, n - 1);
      DivModUnique(c + d, n, -1, n - 1);
      r
    else if c + d == n then
      DivModUnique(c + d + n, n, 2, 0);
      DivModUnique(c + d, n, 1, 0);
      r
    else
      DivModUnique(c + d + n, n, 1, c + d);
      DivModUnique(c + d, n, 0, c + d);
      r
  }

  // ---------------------------------------------------------------------
  // Neighbour count
  // ---------------------------------------------------------------------

  /** 1 when the neighbour of `(x, y)` at offset `(dx, dy)`, wrapped onto the
      torus, is alive, and 0 otherwise. */
  function Live(g: Grid, W: int, H: int, x: int, y: int, dx: int, dy: int): (b: nat)
    requires IsGrid(g, W, H) && 0 <= x < W && 0 <= y < H
    requires -1 <= dx <= 1 && -1 <= dy <= 1
    ensures b <= 1
    ensures b == 1 <==> g[(x + dx) % W][(y + dy) % H]
  {
    if g[WrapStep(x, dx, W)][WrapStep(y, dy, H)] then 1 else 0
  }

  /** Live cells in row `y + dy` around `(x, y)` at column offsets
      `-1 .. dxEnd - 1`, the cell itself excluded. */
  function RowScan(g: Grid, W: int, H: int, x: int, y: int, dy: int, dxEnd: int): (n: nat)
    requires IsGrid(g, W, H) && 0 <= x < W && 0 <= y < H
    requires -1 <= dy <= 1 && -1 <= dxEnd <= 2
    ensures n <= dxEnd + 1
    decreases dxEnd + 1
  {
    if dxEnd == -1 then 0
    else
      var dx := dxEnd - 1;
      RowScan(g, W, H, x, y, dy, dx) + (if dx == 0 && dy == 0 then 0 else Live(g, W, H, x, y, dx, dy))
  }

  /** Live cells around `(x, y)` in the rows at offsets `-1 .. dyEnd - 1`,
      the cell itself excluded. */
  function ScanCount(g: Grid, W: int, H: int, x: int, y: int, dyEnd: int): (n: nat)
    requires IsGrid(g, W, H) && 0 <= x < W && 0 <= y < H && -1 <= dyEnd <= 2
    ensures n <= 3 * (dyEnd + 1)
    decreases dyEnd + 1
  {
    if dyEnd == -1 then 0
    else ScanCount(g, W, H, x, y, dyEnd - 1) + RowScan(g, W, H, x, y, dyEnd - 1, 2)
  }

  /** The number of live cells over the eight offsets at Chebyshev distance
      one from `(x, y)` on the torus; offset (0, 0) is not counted.  On a
      torus narrower than three, two offsets can reach the same cell, which
      is then counted twice, as the program does. */
  function Neighbours(g: Grid, W: int, H: int, x: int, y: int): (n: nat)
    requires IsGrid(g, W, H) && 0 <= x < W && 0 <= y < H
    ensures n <= 8
  {
    ScanCount(g, W, H, x, y, 2)
  }

  /** The neighbour count sums the wrapped cell at each of the eight offsets
      around `(x, y)`, each offset once. */
  lemma NeighboursAsRing(g: Grid, W: int, H: int, x: int, y: int)
    requires IsGrid(g, W, H) && 0 <= x < W && 0 <= y < H
    ensures Neighbours(g, W, H, x, y) ==
      Live(g, W, H, x, y, -1, -1) + Live(g, W, H, x, y, 0, -1) + Live(g, W, H, x, y, 1, -1)
      + Live(g, W, H, x, y, -1, 0) + Live(g, W, H, x, y, 1, 0)
      + Live(g, W, H, x, y, -1, 1) + Live(g, W, H, x, y, 0, 1) + Live(g, W, H, x, y, 1, 1)
  {
    forall dy | -1 <= dy <= 1
      ensures RowScan(g, W, H, x, y, dy, 2)
        == (if dy == 0 then 0 else Live(g, W, H, x, y, 0, dy))
           + Live(g, W, H, x, y, -1, dy) + Live(g, W, H, x, y, 1, dy)
    {
      assert RowScan(g, W, H, x, y, dy, 1) == RowScan(g, W, H, x, y, dy, 0)
        + (if dy == 0 then 0 else Live(g, W, H, x, y, 0, dy));
    }
    assert ScanCount(g, W, H, x, y, 1) == ScanCount(g, W, H, x, y, 0) + RowScan(g, W, H, x, y, 0, 2);
  }
}
