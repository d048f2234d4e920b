/**
 * The collapse engine: a plot generator owning a 16 x 16 grid of cell states,
 * updated in place by the entropy sweep, neighbour propagation, the collapse
 * loop and the final conversion into a plot of plain tiles.
 *
 * The two random picks of the engine (which minimal-entropy cell, which of its
 * candidates) are nondeterministic choices: every property below holds for
 * every choice.
 */
module Generator {
  import opened Tiles
  import opened Waves
  import opened Grids

  /** `usize::MAX`, the entropy the sweep starts from. */
  const UsizeMax: int := 0xFFFF_FFFF_FFFF_FFFF

  /** `isize::MAX`, the largest length a Rust vector can have. */
  const IsizeMax: int := 0x7FFF_FFFF_FFFF_FFFF

  /** The two fatal errors of the engine; the cell is the one where it stopped. */
  datatype Failure =
    | NoValidState(x: int, y: int)   // a cell chosen for collapse has no candidate left
    | NotCollapsed(x: int, y: int)   // the conversion into a plot met an open cell

  datatype Result<T> = Ok(value: T) | Err(failure: Failure)

  /** A finished terrain: one kind per cell, indexed `tiles[x][y]`. */
  datatype Plot = Plot(tiles: seq<seq<Tile>>)

  /** Every pair of neighbouring kinds of the plot is allowed by the table. */
  ghost predicate PlotCompatible(p: Plot) {
    && IsSquare(p.tiles)
    && forall x, y, i, j :: InBounds(x, y) && InBounds(i, j) && Adjacent(x, y, i, j) ==>
         Compatible(p.tiles[x][y], p.tiles[i][j])
  }

  /** Where the offset (dx, dy) lands in the offsets array: the value of the counter when it is written. */
  function OffsetIndex(dx: int, dy: int): int {
    3 * (dx + 1) + (dy + 1) - (if dx > 0 || (dx == 0 && dy > 0) then 1 else 0)
  }

  /** (dx, dy) is one of the eight offsets of a cell's neighbours. */
  predicate IsOffset(dx: int, dy: int) {
    -1 <= dx <= 1 && -1 <= dy <= 1 && (dx, dy) != (0, 0)
  }

  /** Different offsets land in different slots. */
  lemma OffsetIndexInjective(dx: int, dy: int, ex: int, ey: int)
    requires IsOffset(dx, dy) && IsOffset(ex, ey) && OffsetIndex(dx, dy) == OffsetIndex(ex, ey)
    ensures dx == ex && dy == ey
  {
  }

  /**
   * Fills the eight-entry offsets array with a counter, in the order of the
   * nested loops over dx and dy and skipping (0, 0): slot k holds the offset
   * whose index is k.
   */
  method NeighbourOffsets() returns (offsets: seq<(int, int)>)
    ensures |offsets| == 8
    ensures forall k :: 0 <= k < 8 ==>
      IsOffset(offsets[k].0, offsets[k].1) && OffsetIndex(offsets[k].0, offsets[k].1) == k
  {
    var neighbours := new (int, int)[8](_ => (0, 0));
    var i := 0;
    for dx := -1 to 2
      invariant i == OffsetIndex(dx, -1)
      invariant forall k :: 0 <= k < i ==>
        IsOffset(neighbours[k].0, neighbours[k].1) && OffsetIndex(neighbours[k].0, neighbours[k].1) == k
    {
      for dy := -1 to 2
        invariant i == OffsetIndex(dx, dy)
        invariant forall k :: 0 <= k < i ==>
          IsOffset(neighbours[k].0, neighbours[k].1) && OffsetIndex(neighbours[k].0, neighbours[k].1) == k
      {
        if dx == 0 && dy == 0 {
          continue;
        }
        neighbours[i] := (dx, dy);
        i := i + 1;
      }
    }
    offsets := neighbours[..];
  }

  /**
   * An array filled as NeighbourOffsets fills it holds every offset of
   * {-1, 0, 1}^2 other than (0, 0), and each exactly once.
   */
  lemma OffsetsExactlyTheEight(offsets: seq<(int, int)>)
    requires |offsets| == 8
    requires forall k :: 0 <= k < 8 ==>
      IsOffset(offsets[k].0, offsets[k].1) && OffsetIndex(offsets[k].0, offsets[k].1) == k
    ensures forall d :: d in offsets <==> IsOffset(d.0, d.1)
    ensures forall a, b :: 0 <= a < b < 8 ==> offsets[a] != offsets[b]
  {
    forall d: (int, int) | IsOffset(d.0, d.1) ensures d in offsets {
      var k := OffsetIndex(d.0, d.1);
      OffsetIndexInjective(offsets[k].0, offsets[k].1, d.0, d.1);
    }
  }

  /** What the sweep of FindLowestEntropy knows once it has read the cells of rank below `r`. */
  ghost predicate Swept(g: Grid, lowest: seq<(int, int)>, entropy: int, r: int)
    requires IsSquare(g)
  {
    && entropy <= UsizeMax
    && (lowest == [] ==> entropy == UsizeMax)
    && (forall p :: p in lowest ==>
          && InBounds(p.0, p.1) && Rank(p.0, p.1) < r
          && g[p.0][p.1].Superposition? && |g[p.0][p.1].candidates| == entropy)
    && (forall i, j :: InBounds(i, j) && Rank(i, j) < r && g[i][j].Superposition? ==>
          && entropy <= |g[i][j].candidates|
          && (|g[i][j].candidates| == entropy ==> (i, j) in lowest))
    && (forall a, b :: 0 <= a < b < |lowest| ==> Rank(lowest[a].0, lowest[a].1) < Rank(lowest[b].0, lowest[b].1))
  }

  /** Reading cell (x, y) keeps what the sweep knows, one rank further, in each branch of the sweep. */
  lemma SweepCell(g: Grid, lowest: seq<(int, int)>, entropy: int, x: int, y: int)
    requires IsSquare(g) && InBounds(x, y) && Swept(g, lowest, entropy, Rank(x, y))
    requires g[x][y].Superposition? ==> |g[x][y].candidates| <= IsizeMax
    ensures g[x][y].Collapsed? ==> Swept(g, lowest, entropy, Rank(x, y) + 1)
    ensures g[x][y].Superposition? && |g[x][y].candidates| < entropy ==>
      Swept(g, [(x, y)], |g[x][y].candidates|, Rank(x, y) + 1)
    ensures g[x][y].Superposition? && |g[x][y].candidates| == entropy ==>
      Swept(g, lowest + [(x, y)], entropy, Rank(x, y) + 1)
    ensures g[x][y].Superposition? && |g[x][y].candidates| > entropy ==>
      Swept(g, lowest, entropy, Rank(x, y) + 1)
  {
    forall i, j | InBounds(i, j) && Rank(i, j) == Rank(x, y) ensures i == x && j == y {
      RankInjective(i, j, x, y);
    }
  }

  /** Once every cell has been read, the sweep has found exactly the open cells of minimal entropy. */
  lemma SweepComplete(g: Grid, lowest: seq<(int, int)>, entropy: int)
    requires IsSquare(g) && Bounded(g) && Swept(g, lowest, entropy, N * N)
    ensures forall p :: p in lowest ==> InBounds(p.0, p.1) && MinimalEntropy(g, p.0, p.1)
    ensures forall x, y :: InBounds(x, y) && MinimalEntropy(g, x, y) ==> (x, y) in lowest
    ensures lowest == [] <==> AllCollapsed(g)
  {
    if lowest != [] {
      assert lowest[0] in lowest;
    }
    forall x, y | InBounds(x, y) && MinimalEntropy(g, x, y) ensures (x, y) in lowest {
      if lowest != [] {
        assert lowest[0] in lowest;
      }
    }
  }

  /** Cell (i, j) of `g` once propagation from (x, y) has handled the first `k` offsets. */
  ghost function Visited(g: Grid, x: int, y: int, k: int, allowed: seq<Tile>, i: int, j: int): WaveState
    requires IsSquare(g) && InBounds(i, j)
  {
    if Adjacent(x, y, i, j) && OffsetIndex(i - x, j - y) < k && g[i][j].Superposition?
    then Superposition(Filter(g[i][j].candidates, allowed))
    else g[i][j]
  }

  /** The collapse stopped at (x, y): an open cell of minimal entropy with no candidate left. */
  ghost predicate Contradiction(g: Grid, f: Failure)
    requires IsSquare(g)
  {
    f.NoValidState? && InBounds(f.x, f.y) && MinimalEntropy(g, f.x, f.y) && g[f.x][f.y].candidates == []
  }

  /** (x, y) is the first open cell of `g` in sweep order. */
  ghost predicate FirstOpen(g: Grid, x: int, y: int)
    requires IsSquare(g)
  {
    && InBounds(x, y) && g[x][y].Superposition?
    && forall i, j :: InBounds(i, j) && Rank(i, j) < Rank(x, y) ==> g[i][j].Collapsed?
  }

  /** No open cell of `g` has more candidates than a Rust vector can hold (`isize::MAX`). */
  ghost predicate Bounded(g: Grid)
    requires IsSquare(g)
  {
    forall x, y :: InBounds(x, y) && g[x][y].Superposition? ==> |g[x][y].candidates| <= IsizeMax
  }

  class PlotGenerator {
    const tiles: array2<WaveState>
    /** The grid as a value: `cells[x][y]` is the state of `tiles[x, y]`. */
    ghost var cells: Grid

    /** The grid is 16 x 16, and `cells` is the value of `tiles`. */
    ghost predicate Valid()
      reads this, tiles
    {
      && tiles.Length0 == N && tiles.Length1 == N
      && IsSquare(cells) && Bounded(cells)
      && forall x, y :: InBounds(x, y) ==> cells[x][y] == tiles[x, y]
    }

    /** The default generator: every cell may still be any kind. */
    constructor ()
      ensures Valid() && fresh(tiles)
      ensures cells == InitialGrid()
    {
      tiles := new WaveState[N, N]((x, y) => DefaultState());
      cells := InitialGrid();
    }

    /**
     * The open cells of minimal entropy, each once, in sweep order (rows `y`
     * outside, columns `x` inside); empty exactly when every cell is collapsed.
     * A singleton candidate list is an ordinary open cell here, and an empty one
     * has entropy 0.
     */
    method FindLowestEntropy() returns (lowest: seq<(int, int)>)
      requires Valid()
      ensures forall p :: p in lowest ==> InBounds(p.0, p.1) && MinimalEntropy(cells, p.0, p.1)
      ensures forall x, y :: InBounds(x, y) && MinimalEntropy(cells, x, y) ==> (x, y) in lowest
      ensures forall a, b :: 0 <= a < b < |lowest| ==>
        Rank(lowest[a].0, lowest[a].1) < Rank(lowest[b].0, lowest[b].1)
      ensures lowest == [] <==> AllCollapsed(cells)
    {
      ghost var g: Grid := cells;
      lowest := [];
      var entropy := UsizeMax;
      for y := 0 to N
        invariant Swept(g, lowest, entropy, Rank(0, y))
      {
        for x := 0 to N
          invariant Swept(g, lowest, entropy, Rank(x, y))
        {
          assert tiles[x, y] == g[x][y];
          SweepCell(g, lowest, entropy, x, y);
          match tiles[x, y]
          case Collapsed(_) =>
          case Superposition(pos) =>
            if |pos| < entropy {
              entropy := |pos|;
              lowest := [(x, y)];
            } else if |pos| == entropy {
              lowest := lowest + [(x, y)];
            }
        }
      }
      SweepComplete(g, lowest, entropy);
    }

    /**
     * Propagates from (x, y): every open cell among the eight around it keeps,
     * in order, only the candidates that occur in the possibilities of (x, y);
     * nothing else changes (Grids.PropagateFrame, Grids.PropagateNeighbour).
     */
    method UpdateNeighbours(x: int, y: int)
      requires Valid() && InBounds(x, y)
      modifies this, tiles
      ensures Valid()
      ensures cells == Propagate(old(cells), x, y)
    {
      ghost var g: Grid := cells;
      var neighbours := NeighbourOffsets();
      var possibilities := Possibilities(tiles[x, y]);
      forall i, j | InBounds(i, j) ensures tiles[i, j] == Visited(g, x, y, 0, possibilities, i, j) {
        if Adjacent(x, y, i, j) {
          assert OffsetIndex(i - x, j - y) >= 0;
        }
      }
      for k := 0 to |neighbours|
        invariant forall i, j :: InBounds(i, j) ==>
          tiles[i, j] == Visited(g, x, y, k, possibilities, i, j)
      {
        var (dx, dy) := neighbours[k];
        // every cell but (x + dx, y + dy) is as the first k + 1 offsets leave it
        forall i, j | InBounds(i, j) && (i, j) != (x + dx, y + dy)
          ensures Visited(g, x, y, k + 1, possibilities, i, j) == Visited(g, x, y, k, possibilities, i, j)
        {
          if Adjacent(x, y, i, j) && OffsetIndex(i - x, j - y) == k {
            OffsetIndexInjective(i - x, j - y, dx, dy);
          }
        }
        if x + dx < 0 || x + dx >= N {
          continue;
        }
        if y + dy < 0 || y + dy >= N {
          continue;
        }
        var nx, ny := x + dx, y + dy;
        assert Adjacent(x, y, nx, ny) && OffsetIndex(nx - x, ny - y) == k;
        if tiles[nx, ny].Superposition? {
          tiles[nx, ny] := Superposition(Filter(tiles[nx, ny].candidates, possibilities));
        }
        assert tiles[nx, ny] == Visited(g, x, y, k + 1, possibilities, nx, ny);
      }
      forall i, j | InBounds(i, j) ensures tiles[i, j] == PropagatedCell(g, x, y, i, j) {
        assert Adjacent(x, y, i, j) ==> OffsetIndex(i - x, j - y) < 8;
      }
      cells := Propagate(g, x, y);
    }

    /**
     * One round of the driver loop at the chosen open cell (x, y): collapse it
     * to one of its candidates, then propagate from it. With no candidate left
     * this is the fatal "no valid state" error, and nothing has changed.
     */
    method CollapseCell(x: int, y: int) returns (result: Result<()>, ghost t: Tile)
      requires Valid() && InBounds(x, y) && cells[x][y].Superposition?
      modifies this, tiles
      ensures Valid()
      ensures result.Ok? <==> old(cells)[x][y].candidates != []
      ensures result.Ok? ==> t in old(cells)[x][y].candidates && cells == Step(old(cells), Move(x, y, t))
      ensures result.Err? ==> result.failure == NoValidState(x, y) && cells == old(cells)
    {
      var states := tiles[x, y].candidates;
      if states == [] {
        return Err(NoValidState(x, y)), River;
      }
      assert states[0] in states;
      var tile :| tile in states;
      t := tile;
      tiles[x, y] := Collapsed(tile);
      cells := CollapseAt(cells, x, y, tile);
      UpdateNeighbours(x, y);
      result := Ok(());
    }

    /**
     * The driver loop: while some cell is open, pick one of the open cells of
     * minimal entropy, collapse it to one of its candidates and propagate from
     * it. The picks are the ghost `moves`, a legal run of the grid model whose
     * end is the final grid; each move closes one cell, so there are at most
     * N * N of them. A chosen cell without candidates is the fatal "no valid
     * state" error. Started from a grid satisfying the invariant (the default
     * grid does), the loop always succeeds and leaves a compatible grid.
     */
    method Collapse() returns (result: Result<()>, ghost moves: seq<Move>)
      requires Valid()
      modifies this, tiles
      ensures Valid()
      ensures LegalRun(old(cells), moves) && cells == Run(old(cells), moves)
      ensures |moves| == |OpenCells(old(cells))| - |OpenCells(cells)| <= N * N
      ensures result.Ok? <==> AllCollapsed(cells)
      ensures result.Err? ==> Contradiction(cells, result.failure)
      ensures Invariant(old(cells)) ==> result.Ok? && Invariant(cells) && AllCompatible(cells)
    {
      ghost var g0: Grid := cells;
      moves := [];
      var lowest := FindLowestEntropy();
      while lowest != []
        invariant Valid()
        invariant LegalRun(g0, moves) && cells == Run(g0, moves)
        invariant forall p :: p in lowest ==> InBounds(p.0, p.1) && MinimalEntropy(cells, p.0, p.1)
        invariant lowest == [] <==> AllCollapsed(cells)
        decreases |OpenCells(cells)|
      {
        var k :| 0 <= k < |lowest|;
        var (x, y) := lowest[k];
        assert lowest[k] in lowest;
        if Invariant(g0) {
          RunPreservesInvariant(g0, moves);
          InvariantNoContradiction(cells, x, y);
        }
        ghost var g: Grid := cells;
        var collapsed;
        ghost var t;
        collapsed, t := CollapseCell(x, y);
        if collapsed.Err? {
          RunOpenCells(g0, moves);
          OpenCellsBound(g0);
          result := collapsed;
          return;
        }
        ghost var m := Move(x, y, t);
        assert LegalMove(g, m);
        RunExtend(g0, moves, m);
        StepOpenCells(g, m);
        moves := moves + [m];
        lowest := FindLowestEntropy();
      }
      result := Ok(());
      RunOpenCells(g0, moves);
      OpenCellsBound(g0);
      if Invariant(g0) {
        RunPreservesInvariant(g0, moves);
        FinishedGridCompatible(cells);
      }
    }

    /**
     * Copies the kind of every cell into a plot, sweeping rows `y` outside and
     * columns `x` inside; the first open cell met is the fatal "not collapsed"
     * error.
     */
    method IntoPlot() returns (result: Result<Plot>)
      requires Valid()
      ensures result.Ok? <==> AllCollapsed(cells)
      ensures result.Ok? ==>
        && IsSquare(result.value.tiles)
        && forall x, y :: InBounds(x, y) ==> cells[x][y] == Collapsed(result.value.tiles[x][y])
      ensures result.Err? ==> result.failure.NotCollapsed? && FirstOpen(cells, result.failure.x, result.failure.y)
    {
      var plot := new Tile[N, N]((x, y) => Wasteland);
      for y := 0 to N
        invariant forall i, j :: InBounds(i, j) && Rank(i, j) < Rank(0, y) ==>
          tiles[i, j] == Collapsed(plot[i, j])
      {
        for x := 0 to N
          invariant forall i, j :: InBounds(i, j) && Rank(i, j) < Rank(x, y) ==>
            tiles[i, j] == Collapsed(plot[i, j])
        {
          match tiles[x, y]
          case Collapsed(t) =>
            plot[x, y] := t;
          case Superposition(_) =>
            result := Err(NotCollapsed(x, y));
            return;
        }
      }
      result := Ok(Plot(seq(N, x requires 0 <= x < plot.Length0 reads plot =>
        seq(N, y requires 0 <= y < plot.Length1 reads plot => plot[x, y]))));
    }
  }

  /**
   * The program's entry point without its printing: a default generator,
   * collapsed, turned into a plot. Neither fatal error can occur, and every
   * pair of neighbouring kinds in the plot is allowed by the table.
   */
  method Generate() returns (plot: Plot)
    ensures PlotCompatible(plot)
  {
    var generator := new PlotGenerator();
    InitialInvariant();
    var collapsed;
    ghost var moves;
    collapsed, moves := generator.Collapse();
    var result := generator.IntoPlot();
    plot := result.value;
  }
}
