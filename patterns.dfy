/** The seed patterns of the `init_*` functions and what stamping one does.

    Every stamp loops `dy` over the mask's height and `dx` over its width and
    writes one cell of the mask at `((x + dx) % W, (y + dy) % H)`.  All but
    `init_toad` read the mask as `pattern[dx][dy]`, so the rows written out in
    the source are screen columns.  This module holds the masks, the grid a
    stamp produces, and the three ways the stamp indexing goes wrong. */
module Patterns {
  import opened Toroid

  // ---------------------------------------------------------------------
  // Masks
  // ---------------------------------------------------------------------

  /** Every read `m[dx][dy]` with `dx < w` and `dy < h` is in range. */
  predicate Covers(m: Grid, w: int, h: int)
  {
    0 <= w <= |m| && 0 <= h && forall i :: 0 <= i < w ==> h <= |m[i]|
  }

  /** The mask `m` read the other way round, as `m[dy][dx]`. */
  function Transpose(m: Grid, w: int, h: int): (t: Grid)
    requires Covers(m, h, w)
    ensures Covers(t, w, h) && |t| == w
    ensures forall dx, dy :: 0 <= dx < w && 0 <= dy < h ==> t[dx][dy] == m[dy][dx]
  {
    seq(w, dx requires 0 <= dx < w => seq(h, dy requires 0 <= dy < h => m[dy][dx]))
  }

  /** `init_glider`'s rows; read `[dx][dy]`. */
  const GliderPattern: Grid := [[false, true, false], [false, false, true], [true, true, true]]

  /** `init_block`: 2×2, all alive. */
  const BlockPattern: Grid := [[true, true], [true, true]]

  /** `init_blinker`'s one-dimensional mask, indexed by `dx`. */
  const BlinkerPattern: seq<bool> := [true, true, true]

  /** The blinker as a 3×1 stamp mask: three columns of one cell. */
  const BlinkerColumns: Grid := [[true], [true], [true]]

  /** `init_toad`: two rows of four, read `[dy][dx]`. */
  const ToadPattern: Grid := [[false, true, true, true], [true, true, true, false]]

  /** `init_tub`; read `[dx][dy]`. */
  const TubPattern: Grid := [[false, true, false], [true, false, true], [false, true, false]]

  /** `init_middleweight_spaceship`'s five rows of six. */
  const MwsPattern: Grid := [
    [false, true, false, false, true, false],
    [true, false, false, false, false, true],
    [true, false, false, false, false, true],
    [true, true, false, false, true, true],
    [false, false, true, true, true, true]]

  /** `init_beacon`; read `[dx][dy]`. */
  const BeaconPattern: Grid := [
    [true, true, false, false],
    [true, false, false, false],
    [false, false, false, true],
    [false, false, true, true]]

  /** `init_loaf`; read `[dx][dy]`. */
  const LoafPattern: Grid := [
    [false, true, true, false],
    [true, false, false, true],
    [false, true, false, true],
    [false, false, true, false]]

  /** `init_boat`; read `[dx][dy]`. */
  const BoatPattern: Grid := [[true, true, false], [true, false, true], [false, true, false]]

  /** `init_ship`; read `[dx][dy]`. */
  const ShipPattern: Grid := [[true, false, true], [true, true, false], [false, true, false]]

  // ---------------------------------------------------------------------
  // Pulsar
  // ---------------------------------------------------------------------

  /** The two conditions under which `init_pulsar` sets entry `[i][j]`. */
  predicate PulsarCell(i: int, j: int)
  {
    || ((i == 2 || i == 7 || i == 9 || i == 14) && ((j > 3 && j < 7) || (j > 9 && j < 13)))
    || ((j == 2 || j == 7 || j == 9 || j == 14) && ((i > 3 && i < 7) || (i > 9 && i < 13)))
  }

  /** The 17×17 pulsar mask. */
  const PulsarPattern: Grid := seq(17, i => seq(17, j => PulsarCell(i, j)))

  /** The mask-building loop of `init_pulsar`: start all dead, then set every
      entry that meets either condition. */
  method BuildPulsar() returns (p: Grid)
    ensures p == PulsarPattern
  {
    p := seq(17, _ => seq(17, _ => false));
    for i := 0 to 17
      invariant |p| == 17 && forall r :: 0 <= r < 17 ==> |p[r]| == 17
      invariant forall r, c :: 0 <= r < 17 && 0 <= c < 17 ==> p[r][c] == (r < i && PulsarCell(r, c))
    {
      for j := 0 to 17
        invariant |p| == 17 && forall r :: 0 <= r < 17 ==> |p[r]| == 17
        invariant forall r, c :: 0 <= r < 17 && 0 <= c < 17 ==>
          p[r][c] == ((r < i || (r == i && c < j)) && PulsarCell(r, c))
      {
        if (i == 2 || i == 7 || i == 9 || i == 14) && ((j > 3 && j < 7) || (j > 9 && j < 13)) {
          p := p[i := p[i][j := true]];
        }
        if (j == 2 || j == 7 || j == 9 || j == 14) && ((i > 3 && i < 7) || (i > 9 && i < 13)) {
          p := p[i := p[i][j := true]];
        }
      }
    }
    GridExt(p, PulsarPattern, 17, 17);
  }

  /** The pulsar's live cells are the bars on lines 2, 7, 9 and 14 that span
      4..6 and 10..12, in both directions, so the mask equals its transpose. */
  lemma PulsarShape()
    ensures Covers(PulsarPattern, 17, 17)
    ensures forall i, j :: 0 <= i < 17 && 0 <= j < 17 ==>
      (PulsarPattern[i][j] <==>
        || (i in {2, 7, 9, 14} && j in {4, 5, 6, 10, 11, 12})
        || (j in {2, 7, 9, 14} && i in {4, 5, 6, 10, 11, 12}))
    ensures forall i, j :: 0 <= i < 17 && 0 <= j < 17 ==> PulsarPattern[i][j] == PulsarPattern[j][i]
  {
  }

  // ---------------------------------------------------------------------
  // Wrapped coordinates of a stamp
  // ---------------------------------------------------------------------

  /** The index a stamp writes for offset `d` from corner `c`: `(c + d) % n`. */
  function Coord(c: int, d: int, n: int): int
    requires n > 0
  {
    CRem(c + d, n)
  }

  /** For a corner `x >= 0`, the stamped coordinate `(x + d) % n` lies `d`
      steps past `x` around the torus. */
  lemma WrappedOffset(x: int, d: int, n: int)
    requires n > 0 && x >= 0 && 0 <= d < n
    ensures (Coord(x, d, n) - x) % n == d
  {
    var q := (x + d) / n;
    DivModUnique(Coord(x, d, n) - x, n, -q, d);
  }

  /** A cell `d` steps past `x` around the torus is the stamped coordinate
      `(x + d) % n`: no other cell of the row is written for offset `d`. */
  lemma WrappedOffsetUnique(x: int, d: int, n: int, i: int)
    requires n > 0 && x >= 0 && 0 <= i < n && (i - x) % n == d
    ensures i == Coord(x, d, n)
  {
    var k := (i - x) / n;
    DivModUnique(x + d, n, -k, i);
  }

  // ---------------------------------------------------------------------
  // Stamping
  // ---------------------------------------------------------------------

  /** The grid a stamp of mask `m` (read `m[dx][dy]`, `w` wide and `h` high)
      at corner `(x, y)` leaves behind: a cell whose offset from the corner,
      taken around the torus, falls inside the mask holds the mask entry,
      dead entries included; every other cell is as in `g`. */
  function Stamped(g: Grid, W: int, H: int, m: Grid, w: int, h: int, x: int, y: int): (r: Grid)
    requires IsGrid(g, W, H) && Covers(m, w, h) && w <= W && h <= H
    ensures IsGrid(r, W, H)
  {
    seq(W, i requires 0 <= i < W =>
      seq(H, j requires 0 <= j < H =>
        if (i - x) % W < w && (j - y) % H < h then m[(i - x) % W][(j - y) % H] else g[i][j]))
  }

  /** The grid part-way through a stamp's scan (`dy` outer, `dx` inner):
      mask cells already visited are written, the rest as in `g`. */
  ghost function PartlyStamped(g: Grid, W: int, H: int, m: Grid, w: int, h: int, x: int, y: int, dy: int, dx: int): (r: Grid)
    requires IsGrid(g, W, H) && Covers(m, w, h) && w <= W && h <= H
    ensures IsGrid(r, W, H)
  {
    seq(W, i requires 0 <= i < W =>
      seq(H, j requires 0 <= j < H =>
        if (i - x) % W < w && (j - y) % H < h && ((j - y) % H < dy || ((j - y) % H == dy && (i - x) % W < dx))
        then m[(i - x) % W][(j - y) % H] else g[i][j]))
  }

  /** Visiting offset `(dx, dy)` writes `m[dx][dy]` at the wrapped
      coordinates and nowhere else. */
  lemma StampStep(g: Grid, W: int, H: int, m: Grid, w: int, h: int, x: int, y: int, dy: int, dx: int)
    requires IsGrid(g, W, H) && Covers(m, w, h) && w <= W && h <= H && x >= 0 && y >= 0
    requires 0 <= dx < w && 0 <= dy < h
    ensures 0 <= Coord(x, dx, W) < W && 0 <= Coord(y, dy, H) < H
    ensures var p := PartlyStamped(g, W, H, m, w, h, x, y, dy, dx);
      var i, j := Coord(x, dx, W), Coord(y, dy, H);
      PartlyStamped(g, W, H, m, w, h, x, y, dy, dx + 1) == p[i := p[i][j := m[dx][dy]]]
  {
    var p := PartlyStamped(g, W, H, m, w, h, x, y, dy, dx);
    var i, j := Coord(x, dx, W), Coord(y, dy, H);
    var q := p[i := p[i][j := m[dx][dy]]];
    WrappedOffset(x, dx, W);
    WrappedOffset(y, dy, H);
    forall i', j' | 0 <= i' < W && 0 <= j' < H
      ensures PartlyStamped(g, W, H, m, w, h, x, y, dy, dx + 1)[i'][j'] == q[i'][j']
    {
      if (i' - x) % W == dx && (j' - y) % H == dy {
        WrappedOffsetUnique(x, dx, W, i');
        WrappedOffsetUnique(y, dy, H, j');
      }
    }
    GridExt(PartlyStamped(g, W, H, m, w, h, x, y, dy, dx + 1), q, W, H);
  }

  /** A finished row of the mask is the start of the next one. */
  lemma StampRow(g: Grid, W: int, H: int, m: Grid, w: int, h: int, x: int, y: int, dy: int)
    requires IsGrid(g, W, H) && Covers(m, w, h) && w <= W && h <= H
    ensures PartlyStamped(g, W, H, m, w, h, x, y, dy, w) == PartlyStamped(g, W, H, m, w, h, x, y, dy + 1, 0)
  {
    GridExt(PartlyStamped(g, W, H, m, w, h, x, y, dy, w), PartlyStamped(g, W, H, m, w, h, x, y, dy + 1, 0), W, H);
  }

  /** The scan starts from `g` and ends at the stamped grid. */
  lemma StampEnds(g: Grid, W: int, H: int, m: Grid, w: int, h: int, x: int, y: int)
    requires IsGrid(g, W, H) && Covers(m, w, h) && w <= W && h <= H
    ensures PartlyStamped(g, W, H, m, w, h, x, y, 0, 0) == g
    ensures PartlyStamped(g, W, H, m, w, h, x, y, h, 0) == Stamped(g, W, H, m, w, h, x, y)
  {
    GridExt(PartlyStamped(g, W, H, m, w, h, x, y, 0, 0), g, W, H);
    GridExt(PartlyStamped(g, W, H, m, w, h, x, y, h, 0), Stamped(g, W, H, m, w, h, x, y), W, H);
  }

  /** The cells a stamp loop writes, as the program computes them.  With a
      corner at non-negative coordinates every one is a valid index. */
  function Footprint(W: int, H: int, w: int, h: int, x: int, y: int): (cells: set<(int, int)>)
    requires W > 0 && H > 0
    ensures x >= 0 && y >= 0 ==> InGrid(W, H, cells)
  {
    set dx, dy | 0 <= dx < w && 0 <= dy < h :: (Coord(x, dx, W), Coord(y, dy, H))
  }

  /** Every cell of `cells` is a valid index of a `W`×`H` game state. */
  predicate InGrid(W: int, H: int, cells: set<(int, int)>)
  {
    forall c :: c in cells ==> 0 <= c.0 < W && 0 <= c.1 < H
  }

  /** After a stamp, each footprint cell `((x + dx) % W, (y + dy) % H)` holds
      the mask entry `m[dx][dy]`, whether alive or dead. */
  lemma StampedFootprint(g: Grid, W: int, H: int, m: Grid, w: int, h: int, x: int, y: int, dx: int, dy: int)
    requires IsGrid(g, W, H) && Covers(m, w, h) && w <= W && h <= H && x >= 0 && y >= 0
    requires 0 <= dx < w && 0 <= dy < h
    ensures Stamped(g, W, H, m, w, h, x, y)[Coord(x, dx, W)][Coord(y, dy, H)] == m[dx][dy]
  {
    WrappedOffset(x, dx, W);
    WrappedOffset(y, dy, H);
  }

  /** After a stamp, every cell outside the footprint is unchanged. */
  lemma StampedOutside(g: Grid, W: int, H: int, m: Grid, w: int, h: int, x: int, y: int, i: int, j: int)
    requires IsGrid(g, W, H) && Covers(m, w, h) && w <= W && h <= H && x >= 0 && y >= 0
    requires 0 <= i < W && 0 <= j < H
    ensures (i, j) !in Footprint(W, H, w, h, x, y) ==> Stamped(g, W, H, m, w, h, x, y)[i][j] == g[i][j]
  {
    var dx, dy := (i - x) % W, (j - y) % H;
    if dx < w && dy < h {
      WrappedOffsetUnique(x, dx, W, i);
      WrappedOffsetUnique(y, dy, H, j);
      assert (Coord(x, dx, W), Coord(y, dy, H)) in Footprint(W, H, w, h, x, y);
    }
  }

  /** A stamp fully overwrites its footprint, so stamping twice in the same
      place is the same as stamping once. */
  lemma StampIdempotent(g: Grid, W: int, H: int, m: Grid, w: int, h: int, x: int, y: int)
    requires IsGrid(g, W, H) && Covers(m, w, h) && w <= W && h <= H
    ensures var s := Stamped(g, W, H, m, w, h, x, y);
      Stamped(s, W, H, m, w, h, x, y) == s
  {
    var s := Stamped(g, W, H, m, w, h, x, y);
    GridExt(Stamped(s, W, H, m, w, h, x, y), s, W, H);
  }

  // ---------------------------------------------------------------------
  // Indexing defects of the stamps as written
  // ---------------------------------------------------------------------

  /** `%` keeps the sign of its left operand, so a corner at `x == -1` makes
      the stamp write column -1, outside the game state. */
  lemma NegativeCornerLeavesGrid()
    ensures !InGrid(100, 100, Footprint(100, 100, 2, 2, -1, 0))
  {
    CRemOfMinusOne(100);
    assert (Coord(-1, 0, 100), Coord(0, 0, 100)) in Footprint(100, 100, 2, 2, -1, 0);
  }

  /** The cells `init_blinker` writes as written: the column is wrapped, the
      row `y` is used as given.  Every write lands in row `y`, and for a row
      inside the grid the cells are those of the wrapped 3×1 stamp. */
  function BlinkerFootprintAsWritten(W: int, H: int, x: int, y: int): (cells: set<(int, int)>)
    requires W > 0 && H > 0
    ensures forall c :: c in cells ==> c.1 == y
    ensures x >= 0 && 0 <= y < H ==> cells == Footprint(W, H, 3, 1, x, y)
  {
    var cells := set dx | 0 <= dx < 3 :: (Coord(x, dx, W), y);
    if 0 <= y < H then
      DivModUnique(y, H, 0, y);
      assert Coord(y, 0, H) == y;
      cells
    else
      cells
  }

  /** `init_blinker(10, 100)` on the 100×100 grid writes row 100, one past the
      last, where the wrapped 3×1 stamp writes row 0. */
  lemma BlinkerAsWrittenLeavesGrid()
    ensures !InGrid(100, 100, BlinkerFootprintAsWritten(100, 100, 10, 100))
    ensures InGrid(100, 100, Footprint(100, 100, 3, 1, 10, 100))
  {
    assert (Coord(10, 0, 100), 100) in BlinkerFootprintAsWritten(100, 100, 10, 100);
  }

  /** `init_middleweight_spaceship` loops `dx` up to 5 and `dy` up to 4 and
      reads `mws_pattern[dx][dy]`, but the mask has only five rows: the read
      at `dx == 5` is out of range.  Read as `[dy][dx]`, the same loop bounds
      fit the mask. */
  lemma MwsAsWrittenReadsPastMask()
    ensures |MwsPattern| == 5 && !Covers(MwsPattern, 6, 5)
    ensures Covers(Transpose(MwsPattern, 6, 5), 6, 5)
  {
  }

  /** `init_toad` reads `toad_pattern[dy][dx]`: after its stamp, the cell
      `dx` columns and `dy` rows past the corner holds the literal's row
      `dy`, entry `dx`. */
  lemma ToadStampReadsRows(g: Grid, W: int, H: int, x: int, y: int, dx: int, dy: int)
    requires IsGrid(g, W, H) && 4 <= W && 2 <= H && x >= 0 && y >= 0
    requires 0 <= dx < 4 && 0 <= dy < 2
    ensures Stamped(g, W, H, Transpose(ToadPattern, 4, 2), 4, 2, x, y)[Coord(x, dx, W)][Coord(y, dy, H)]
      == ToadPattern[dy][dx]
  {
    StampedFootprint(g, W, H, Transpose(ToadPattern, 4, 2), 4, 2, x, y, dx, dy);
  }

  /** The corrected spaceship stamp reads `mws_pattern[dy][dx]` the same way:
      after it, the cell `dx` columns and `dy` rows past the corner holds the
      literal's row `dy`, entry `dx`, for the full 6×5 loop. */
  lemma MwsStampReadsRows(g: Grid, W: int, H: int, x: int, y: int, dx: int, dy: int)
    requires IsGrid(g, W, H) && 6 <= W && 5 <= H && x >= 0 && y >= 0
    requires 0 <= dx < 6 && 0 <= dy < 5
    ensures Stamped(g, W, H, Transpose(MwsPattern, 6, 5), 6, 5, x, y)[Coord(x, dx, W)][Coord(y, dy, H)]
      == MwsPattern[dy][dx]
  {
    StampedFootprint(g, W, H, Transpose(MwsPattern, 6, 5), 6, 5, x, y, dx, dy);
  }

  /** The mask literals cover the reads their loops make: glider, tub, boat
      and ship 3×3, block 2×2, beacon and loaf 4×4, the blinker's three
      entries, the toad literal read `[dy][dx]` (2 rows of 4) and the 17×17
      pulsar.  The spaceship literal (5 rows of 6) is covered only under the
      corrected `[dy][dx]` reading; the `[dx][dy]` reads the program makes do
      not fit, see `MwsAsWrittenReadsPastMask`. */
  lemma MasksFitTheirLoops()
    ensures Covers(GliderPattern, 3, 3) && Covers(BlockPattern, 2, 2) && |BlinkerPattern| == 3
    ensures Covers(ToadPattern, 2, 4) && Covers(TubPattern, 3, 3) && Covers(PulsarPattern, 17, 17)
    ensures Covers(MwsPattern, 5, 6)
    ensures Covers(BeaconPattern, 4, 4) && Covers(LoafPattern, 4, 4)
    ensures Covers(BoatPattern, 3, 3) && Covers(ShipPattern, 3, 3)
  {
  }
}
