/** The generation rule of `update_game_state`: the neighbour-counting loop,
    the B3/S23 rule for one cell, and the next generation of a whole grid. */
module Rules {
  import opened Toroid

  /** The neighbour loop of `update_game_state`: sums the wrapped cells
      at the eight offsets around `(x, y)`, skipping offset (0, 0). */
  method CountNeighbours(g: Grid, W: int, H: int, x: int, y: int) returns (n: nat)
    requires IsGrid(g, W, H) && 0 <= x < W && 0 <= y < H
    ensures n == Neighbours(g, W, H, x, y)
    ensures n <= 8
  {
    n := 0;
    for dy := -1 to 2
      invariant n == ScanCount(g, W, H, x, y, dy)
    {
      for dx := -1 to 2
        invariant n == ScanCount(g, W, H, x, y, dy) + RowScan(g, W, H, x, y, dy, dx)
      {
        ScanStep(g, W, H, x, y, dy, dx);
        if dx == 0 && dy == 0 {
          continue;
        }
        var nx := CRem(x + dx + W, W);
        var ny := CRem(y + dy + H, H);
        n := n + if g[nx][ny] then 1 else 0;
      }
      assert ScanCount(g, W, H, x, y, dy + 1) == ScanCount(g, W, H, x, y, dy) + RowScan(g, W, H, x, y, dy, 2);
    }
  }

  /** One turn of the inner neighbour loop adds the cell at
      `((x + dx + W) % W, (y + dy + H) % H)`, except at offset (0, 0). */
  lemma ScanStep(g: Grid, W: int, H: int, x: int, y: int, dy: int, dx: int)
    requires IsGrid(g, W, H) && 0 <= x < W && 0 <= y < H
    requires -1 <= dy <= 1 && -1 <= dx <= 1
    ensures 0 <= CRem(x + dx + W, W) < W && 0 <= CRem(y + dy + H, H) < H
    ensures RowScan(g, W, H, x, y, dy, dx + 1) == RowScan(g, W, H, x, y, dy, dx)
      + if dx == 0 && dy == 0 then 0 else if g[CRem(x + dx + W, W)][CRem(y + dy + H, H)] then 1 else 0
  {
    assert CRem(x + dx + W, W) == WrapStep(x, dx, W) && CRem(y + dy + H, H) == WrapStep(y, dy, H);
  }

  /** The fate of one cell, branch for branch as `update_game_state` decides
      it: a live cell with fewer than two or more than three neighbours dies,
      a dead cell with exactly three is born, and every other cell keeps the
      value copied into the new state.  Together: B3/S23. */
  function NextCell(alive: bool, n: nat): (r: bool)
    ensures r <==> n == 3 || (alive && n == 2)
  {
    if alive && (n < 2 || n > 3) then false
    else if !alive && n == 3 then true
    else alive
  }

  /** The next generation, every cell computed from the unchanged grid `g`
      alone.  It has the same dimensions, and a cell is alive in it exactly
      when it has three live neighbours in `g`, or two and was alive. */
  function Next(g: Grid, W: int, H: int): (r: Grid)
    requires IsGrid(g, W, H)
    ensures IsGrid(r, W, H)
    ensures forall x, y :: 0 <= x < W && 0 <= y < H ==>
      (r[x][y] <==> Neighbours(g, W, H, x, y) == 3 || (g[x][y] && Neighbours(g, W, H, x, y) == 2))
  {
    seq(W, x requires 0 <= x < W =>
      seq(H, y requires 0 <= y < H => NextCell(g[x][y], Neighbours(g, W, H, x, y))))
  }

  /** The rule, case by case, for one cell of the next generation. */
  lemma NextRule(g: Grid, W: int, H: int, x: int, y: int)
    requires IsGrid(g, W, H) && 0 <= x < W && 0 <= y < H
    ensures var n := Neighbours(g, W, H, x, y);
      && (g[x][y] && (n < 2 || n > 3) ==> !Next(g, W, H)[x][y])
      && (g[x][y] && 2 <= n <= 3 ==> Next(g, W, H)[x][y])
      && (!g[x][y] && n == 3 ==> Next(g, W, H)[x][y])
      && (!g[x][y] && n != 3 ==> !Next(g, W, H)[x][y])
  {
  }

  /** In an all-dead grid every cell counts zero live neighbours. */
  lemma NoLiveNeighbours(g: Grid, W: int, H: int, x: int, y: int)
    requires IsGrid(g, W, H) && 0 <= x < W && 0 <= y < H
    requires forall x, y :: 0 <= x < W && 0 <= y < H ==> !g[x][y]
    ensures Neighbours(g, W, H, x, y) == 0
  {
    forall dx, dy | -1 <= dx <= 1 && -1 <= dy <= 1
      ensures Live(g, W, H, x, y, dx, dy) == 0
    {
      assert !g[WrapStep(x, dx, W)][WrapStep(y, dy, H)];
    }
    NeighboursAsRing(g, W, H, x, y);
  }

  /** No cell is born without live neighbours: the all-dead state is a
      fixed point of the step. */
  lemma DeadStaysDead(g: Grid, W: int, H: int)
    requires IsGrid(g, W, H)
    requires forall x, y :: 0 <= x < W && 0 <= y < H ==> !g[x][y]
    ensures Next(g, W, H) == g
  {
    forall x, y | 0 <= x < W && 0 <= y < H
      ensures Next(g, W, H)[x][y] == g[x][y]
    {
      NoLiveNeighbours(g, W, H, x, y);
    }
    GridExt(Next(g, W, H), g, W, H);
  }

  /** The new state part-way through the scan of `update_game_state` (`y`
      outer, `x` inner): visited cells hold their value in `t`, the others
      the value copied from `g`. */
  ghost function PartlyAdvanced(g: Grid, t: Grid, W: int, H: int, y: int, x: int): (r: Grid)
    requires IsGrid(g, W, H) && IsGrid(t, W, H)
    ensures IsGrid(r, W, H)
  {
    seq(W, i requires 0 <= i < W =>
      seq(H, j requires 0 <= j < H =>
        if j < y || (j == y && i < x) then t[i][j] else g[i][j]))
  }

  /** Visiting `(x, y)` sets that one cell to its value in `t`; when that is
      the value already copied from `g`, nothing changes. */
  lemma AdvanceStep(g: Grid, t: Grid, W: int, H: int, y: int, x: int)
    requires IsGrid(g, W, H) && IsGrid(t, W, H) && 0 <= x < W && 0 <= y < H
    ensures var p := PartlyAdvanced(g, t, W, H, y, x);
      && PartlyAdvanced(g, t, W, H, y, x + 1) == p[x := p[x][y := t[x][y]]]
      && (t[x][y] == g[x][y] ==> PartlyAdvanced(g, t, W, H, y, x + 1) == p)
  {
    var p := PartlyAdvanced(g, t, W, H, y, x);
    GridExt(PartlyAdvanced(g, t, W, H, y, x + 1), p[x := p[x][y := t[x][y]]], W, H);
    if t[x][y] == g[x][y] {
      GridExt(PartlyAdvanced(g, t, W, H, y, x + 1), p, W, H);
    }
  }

  /** A finished row is the start of the next one. */
  lemma AdvanceRow(g: Grid, t: Grid, W: int, H: int, y: int)
    requires IsGrid(g, W, H) && IsGrid(t, W, H)
    ensures PartlyAdvanced(g, t, W, H, y, W) == PartlyAdvanced(g, t, W, H, y + 1, 0)
  {
    GridExt(PartlyAdvanced(g, t, W, H, y, W), PartlyAdvanced(g, t, W, H, y + 1, 0), W, H);
  }

  /** The scan starts from the copy of `g` and ends at `t`. */
  lemma AdvanceEnds(g: Grid, t: Grid, W: int, H: int)
    requires IsGrid(g, W, H) && IsGrid(t, W, H)
    ensures PartlyAdvanced(g, t, W, H, 0, 0) == g
    ensures PartlyAdvanced(g, t, W, H, H, 0) == t
  {
    GridExt(PartlyAdvanced(g, t, W, H, 0, 0), g, W, H);
    GridExt(PartlyAdvanced(g, t, W, H, H, 0), t, W, H);
  }
}
