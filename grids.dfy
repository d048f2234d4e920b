/**
 * The generator's grid as a value, and the specification of the collapse
 * engine on it: what one propagation does, what one collapse step does, what
 * a whole run of steps does, and the invariants that make the run succeed.
 */
module Grids {
  import opened Tiles
  import opened Waves

  /** Side length of the square grid. */
  const N: int := 16

  /** A grid of cell states, indexed `g[x][y]` like the generator's `tiles[x][y]`. */
  type Grid = seq<seq<WaveState>>

  /** `g` is N x N: the shape of the generator's grid and of a finished plot. */
  predicate IsSquare<T>(g: seq<seq<T>>) {
    |g| == N && forall x :: 0 <= x < N ==> |g[x]| == N
  }

  predicate InBounds(x: int, y: int) {
    0 <= x < N && 0 <= y < N
  }

  /** (i, j) is one of the eight cells around (x, y). */
  predicate Adjacent(x: int, y: int, i: int, j: int) {
    (x, y) != (i, j) && -1 <= i - x <= 1 && -1 <= j - y <= 1
  }

  ghost predicate AllCollapsed(g: Grid)
    requires IsSquare(g)
  {
    forall x, y :: InBounds(x, y) ==> g[x][y].Collapsed?
  }

  /** (x, y) is open and no open cell has a shorter candidate list. */
  ghost predicate MinimalEntropy(g: Grid, x: int, y: int)
    requires IsSquare(g) && InBounds(x, y)
  {
    && g[x][y].Superposition?
    && forall i, j :: InBounds(i, j) && g[i][j].Superposition? ==>
         |g[x][y].candidates| <= |g[i][j].candidates|
  }

  /** The coordinates of the cells not yet collapsed. */
  function OpenCells(g: Grid): set<(int, int)>
    requires IsSquare(g)
  {
    set x, y | 0 <= x < N && 0 <= y < N && g[x][y].Superposition? :: (x, y)
  }

  /** Position of (x, y) in the generator's sweep: rows `y` outside, columns `x` inside. */
  function Rank(x: int, y: int): int {
    y * N + x
  }

  /** The grid the generator starts from: every cell in the default state. */
  function InitialGrid(): (g: Grid)
    ensures IsSquare(g)
    ensures forall x, y :: InBounds(x, y) ==> g[x][y] == DefaultState()
  {
    seq(N, x => seq(N, y => DefaultState()))
  }

  /** The state of cell (i, j) after propagating from (x, y). */
  function PropagatedCell(g: Grid, x: int, y: int, i: int, j: int): WaveState
    requires IsSquare(g) && InBounds(x, y) && InBounds(i, j)
  {
    if Adjacent(x, y, i, j) && g[i][j].Superposition?
    then Superposition(Filter(g[i][j].candidates, Possibilities(g[x][y])))
    else g[i][j]
  }

  /** One propagation from (x, y): every open neighbour keeps only the kinds the cell allows. */
  function Propagate(g: Grid, x: int, y: int): (r: Grid)
    requires IsSquare(g) && InBounds(x, y)
    ensures IsSquare(r)
  {
    seq(N, i requires 0 <= i < N => seq(N, j requires 0 <= j < N => PropagatedCell(g, x, y, i, j)))
  }

  /** One iteration of the driver: collapse (x, y) to `tile`, then propagate from it. */
  datatype Move = Move(x: int, y: int, tile: Tile)

  /** Cell (x, y) becomes `t`; every other cell is unchanged. */
  function CollapseAt(g: Grid, x: int, y: int, t: Tile): (r: Grid)
    requires IsSquare(g) && InBounds(x, y)
    ensures IsSquare(r)
    ensures r[x][y] == Collapsed(t)
    ensures forall i, j :: InBounds(i, j) && (i, j) != (x, y) ==> r[i][j] == g[i][j]
  {
    g[x := g[x][y := Collapsed(t)]]
  }

  function Step(g: Grid, m: Move): (r: Grid)
    requires IsSquare(g) && InBounds(m.x, m.y)
    ensures IsSquare(r)
    ensures r[m.x][m.y] == Collapsed(m.tile)
  {
    Propagate(CollapseAt(g, m.x, m.y, m.tile), m.x, m.y)
  }

  /** The driver may make move `m`: its cell has minimal entropy and `m.tile` is a candidate of it. */
  ghost predicate LegalMove(g: Grid, m: Move)
    requires IsSquare(g)
  {
    InBounds(m.x, m.y) && MinimalEntropy(g, m.x, m.y) && m.tile in g[m.x][m.y].candidates
  }

  /** Every move of `moves` is legal in the grid the previous moves produced. */
  ghost predicate LegalRun(g: Grid, moves: seq<Move>)
    requires IsSquare(g)
    decreases |moves|
  {
    moves == [] || (LegalMove(g, moves[0]) && LegalRun(Step(g, moves[0]), moves[1..]))
  }

  /** The grid reached by making `moves` in order. */
  function Run(g: Grid, moves: seq<Move>): (r: Grid)
    requires IsSquare(g) && LegalRun(g, moves)
    ensures IsSquare(r)
    decreases |moves|
  {
    if moves == [] then g else Run(Step(g, moves[0]), moves[1..])
  }

  /** Every open cell still allows Wasteland. */
  ghost predicate WastelandEverywhere(g: Grid)
    requires IsSquare(g)
  {
    forall x, y :: InBounds(x, y) && g[x][y].Superposition? ==> Wasteland in g[x][y].candidates
  }

  /** A cell of kind `t` tolerates a neighbour in state `w`: its kind, or every candidate it has left. */
  predicate Allows(t: Tile, w: WaveState) {
    match w
    case Collapsed(u) => Compatible(t, u)
    case Superposition(s) => forall u :: u in s ==> Compatible(t, u)
  }

  /** Every collapsed cell tolerates each of its neighbours. */
  ghost predicate Consistent(g: Grid)
    requires IsSquare(g)
  {
    forall x, y, i, j :: InBounds(x, y) && InBounds(i, j) && Adjacent(x, y, i, j) && g[x][y].Collapsed? ==>
      Allows(g[x][y].tile, g[i][j])
  }

  /** The invariant of the driver loop. */
  ghost predicate Invariant(g: Grid)
    requires IsSquare(g)
  {
    WastelandEverywhere(g) && Consistent(g)
  }

  /** The finished grid: every cell collapsed, every pair of neighbours compatible. */
  ghost predicate AllCompatible(g: Grid)
    requires IsSquare(g)
  {
    && AllCollapsed(g)
    && forall x, y, i, j :: InBounds(x, y) && InBounds(i, j) && Adjacent(x, y, i, j) ==>
         Compatible(g[x][y].tile, g[i][j].tile)
  }

  /** The sweep position of a cell determines the cell. */
  lemma RankInjective(x: int, y: int, i: int, j: int)
    requires InBounds(x, y) && InBounds(i, j) && Rank(x, y) == Rank(i, j)
    ensures x == i && y == j
  {
  }

  lemma {:induction false} RankImageSize(s: set<(int, int)>)
    requires forall p :: p in s ==> InBounds(p.0, p.1)
    ensures |set p | p in s :: Rank(p.0, p.1)| == |s|
    decreases |s|
  {
    if s != {} {
      var q :| q in s;
      var rest := s - {q};
      RankImageSize(rest);
      var image := set p | p in s :: Rank(p.0, p.1);
      var restImage := set p | p in rest :: Rank(p.0, p.1);
      assert image == restImage + {Rank(q.0, q.1)};
      forall p | p in rest ensures Rank(p.0, p.1) != Rank(q.0, q.1) {
        if Rank(p.0, p.1) == Rank(q.0, q.1) {
          RankInjective(p.0, p.1, q.0, q.1);
        }
      }
    }
  }

  /** The sweep positions 0 .. n - 1. */
  function Ranks(n: nat): (r: set<int>)
    ensures |r| == n
    ensures forall k :: k in r <==> 0 <= k < n
  {
    if n == 0 then {} else Ranks(n - 1) + {n - 1}
  }

  /** At most N * N cells are open, so a legal run has at most N * N moves. */
  lemma OpenCellsBound(g: Grid)
    requires IsSquare(g)
    ensures |OpenCells(g)| <= N * N
  {
    var s := OpenCells(g);
    RankImageSize(s);
    var image := set p | p in s :: Rank(p.0, p.1);
    assert image <= Ranks(N * N);
    assert |image| == |s|;
    SubsetSize(image, Ranks(N * N));
  }

  lemma SubsetSize(small: set<int>, large: set<int>)
    requires small <= large
    ensures |small| <= |large|
  {
    assert large == small + (large - small);
  }

  // ----- Propagation -----

  /**
   * Propagation changes only the open cells among the eight around (x, y);
   * the source cell, collapsed neighbours and every farther cell stay as they were.
   */
  lemma PropagateFrame(g: Grid, x: int, y: int)
    requires IsSquare(g) && InBounds(x, y)
    ensures forall i, j :: InBounds(i, j) && !(Adjacent(x, y, i, j) && g[i][j].Superposition?) ==>
      Propagate(g, x, y)[i][j] == g[i][j]
    ensures Propagate(g, x, y)[x][y] == g[x][y]
  {
  }

  /**
   * An open neighbour keeps exactly the candidates that some kind still
   * possible at (x, y) tolerates.
   */
  lemma PropagateNeighbour(g: Grid, x: int, y: int, i: int, j: int, t: Tile)
    requires IsSquare(g) && InBounds(x, y) && InBounds(i, j)
    requires Adjacent(x, y, i, j) && g[i][j].Superposition?
    ensures Propagate(g, x, y)[i][j].Superposition?
    ensures g[x][y].Collapsed? ==>
      (t in Propagate(g, x, y)[i][j].candidates <==> t in g[i][j].candidates && Compatible(g[x][y].tile, t))
    ensures g[x][y].Superposition? ==>
      (t in Propagate(g, x, y)[i][j].candidates <==>
         t in g[i][j].candidates && exists k :: k in g[x][y].candidates && Compatible(k, t))
  {
    PossibilitiesMembership(g[x][y], t);
  }

  /**
   * Candidate lists only shrink: every open cell stays open and its new list
   * is a sublist of its old one.
   */
  lemma PropagateShrinks(g: Grid, x: int, y: int)
    requires IsSquare(g) && InBounds(x, y)
    ensures forall i, j :: InBounds(i, j) && g[i][j].Superposition? ==>
      && Propagate(g, x, y)[i][j].Superposition?
      && IsSubsequence(Propagate(g, x, y)[i][j].candidates, g[i][j].candidates)
      && |Propagate(g, x, y)[i][j].candidates| <= |g[i][j].candidates|
  {
    var r: Grid := Propagate(g, x, y);
    forall i: int, j: int | InBounds(i, j) && g[i][j].Superposition?
      ensures IsSubsequence(r[i][j].candidates, g[i][j].candidates)
    {
      if Adjacent(x, y, i, j) {
        FilterIsSubsequence(g[i][j].candidates, Possibilities(g[x][y]));
      } else {
        SubsequenceReflexive(g[i][j].candidates);
      }
    }
  }

  /** Propagating a second time from the same cell changes nothing. */
  lemma PropagateIdempotent(g: Grid, x: int, y: int)
    requires IsSquare(g) && InBounds(x, y)
    ensures Propagate(Propagate(g, x, y), x, y) == Propagate(g, x, y)
  {
    var r: Grid := Propagate(g, x, y);
    var rr: Grid := Propagate(r, x, y);
    assert r[x][y] == g[x][y];
    forall i | 0 <= i < N ensures rr[i] == r[i] {
      forall j | 0 <= j < N ensures rr[i][j] == r[i][j] {
        if Adjacent(x, y, i, j) && g[i][j].Superposition? {
          FilterIdempotent(g[i][j].candidates, Possibilities(g[x][y]));
        }
      }
    }
  }

  /** Propagation never collapses or reopens a cell. */
  lemma PropagateOpenCells(g: Grid, x: int, y: int)
    requires IsSquare(g) && InBounds(x, y)
    ensures OpenCells(Propagate(g, x, y)) == OpenCells(g)
  {
    var r: Grid := Propagate(g, x, y);
    forall p | p in OpenCells(r) ensures p in OpenCells(g) {
      assert r[p.0][p.1].Superposition?;
    }
    forall p | p in OpenCells(g) ensures p in OpenCells(r) {
      assert g[p.0][p.1].Superposition?;
    }
  }

  // ----- Collapse steps and runs -----

  /** A legal step collapses exactly its own cell: the open cells lose (x, y) and nothing else. */
  lemma StepOpenCells(g: Grid, m: Move)
    requires IsSquare(g) && LegalMove(g, m)
    ensures (m.x, m.y) in OpenCells(g)
    ensures OpenCells(Step(g, m)) == OpenCells(g) - {(m.x, m.y)}
    ensures |OpenCells(Step(g, m))| == |OpenCells(g)| - 1
  {
    var g1 := CollapseAt(g, m.x, m.y, m.tile);
    PropagateOpenCells(g1, m.x, m.y);
    forall p | p in OpenCells(g1) ensures p in OpenCells(g) - {(m.x, m.y)} {
      assert g1[p.0][p.1].Superposition?;
    }
    forall p | p in OpenCells(g) - {(m.x, m.y)} ensures p in OpenCells(g1) {
      assert g[p.0][p.1].Superposition?;
    }
    assert OpenCells(g1) == OpenCells(g) - {(m.x, m.y)};
  }

  /** Extending a legal run by a move legal at its end gives a legal run ending one step later. */
  lemma {:induction false} RunExtend(g: Grid, moves: seq<Move>, m: Move)
    requires IsSquare(g) && LegalRun(g, moves) && LegalMove(Run(g, moves), m)
    ensures LegalRun(g, moves + [m])
    ensures Run(g, moves + [m]) == Step(Run(g, moves), m)
    decreases |moves|
  {
    if moves == [] {
      assert moves + [m] == [m];
      assert [m][1..] == [];
    } else {
      RunExtend(Step(g, moves[0]), moves[1..], m);
      assert (moves + [m])[0] == moves[0];
      assert (moves + [m])[1..] == moves[1..] + [m];
    }
  }

  /** Each move of a legal run closes exactly one cell. */
  lemma {:induction false} RunOpenCells(g: Grid, moves: seq<Move>)
    requires IsSquare(g) && LegalRun(g, moves)
    ensures |OpenCells(Run(g, moves))| == |OpenCells(g)| - |moves|
    decreases |moves|
  {
    if moves != [] {
      StepOpenCells(g, moves[0]);
      RunOpenCells(Step(g, moves[0]), moves[1..]);
    }
  }

  // ----- The invariant -----

  /** The default grid satisfies the invariant, and every cell of it is open. */
  lemma InitialInvariant()
    ensures Invariant(InitialGrid())
    ensures forall x, y :: InBounds(x, y) ==> (x, y) in OpenCells(InitialGrid())
  {
  }

  /**
   * Collapsing an open cell to one of its candidates and propagating from it
   * keeps the invariant. The table's symmetry is what lets a cell collapsed
   * next to an already collapsed one stay compatible with it.
   */
  lemma StepPreservesInvariant(g: Grid, m: Move)
    requires IsSquare(g) && InBounds(m.x, m.y) && g[m.x][m.y].Superposition?
    requires m.tile in g[m.x][m.y].candidates
    requires Invariant(g)
    ensures Invariant(Step(g, m))
  {
    var x, y, t := m.x, m.y, m.tile;
    var g1 := CollapseAt(g, x, y, t);
    var r: Grid := Step(g, m);
    assert Possibilities(g1[x][y]) == ValidNeighbours(t);
    forall i: int, j: int | InBounds(i, j) && r[i][j].Superposition?
      ensures Wasteland in r[i][j].candidates
    {
      assert (i, j) != (x, y);
      assert g1[i][j] == g[i][j];
    }
    forall a: int, b: int, i: int, j: int | InBounds(a, b) && InBounds(i, j) && Adjacent(a, b, i, j) && r[a][b].Collapsed?
      ensures Allows(r[a][b].tile, r[i][j])
    {
      assert Adjacent(i, j, a, b);
      if (a, b) == (x, y) {
        assert r[a][b] == Collapsed(t);
        assert g1[i][j] == g[i][j];
        if g[i][j].Collapsed? {
          assert Allows(g[i][j].tile, g[x][y]);
          CompatibleSymmetric(g[i][j].tile, t);
        }
      } else {
        assert r[a][b] == g1[a][b] == g[a][b];
        if (i, j) == (x, y) {
          assert Allows(g[a][b].tile, g[x][y]);
        } else {
          assert g1[i][j] == g[i][j];
          assert Allows(g[a][b].tile, g[i][j]);
        }
      }
    }
  }

  /** A legal run from a grid satisfying the invariant keeps it. */
  lemma {:induction false} RunPreservesInvariant(g: Grid, moves: seq<Move>)
    requires IsSquare(g) && Invariant(g) && LegalRun(g, moves)
    ensures Invariant(Run(g, moves))
    decreases |moves|
  {
    if moves != [] {
      StepPreservesInvariant(g, moves[0]);
      RunPreservesInvariant(Step(g, moves[0]), moves[1..]);
    }
  }

  /** Under the invariant an open cell always has a candidate left: there is never a contradiction. */
  lemma InvariantNoContradiction(g: Grid, x: int, y: int)
    requires IsSquare(g) && Invariant(g) && InBounds(x, y) && g[x][y].Superposition?
    ensures g[x][y].candidates != []
  {
    assert Wasteland in g[x][y].candidates;
  }

  /** Once every cell is collapsed, the invariant is the adjacency property of the finished grid. */
  lemma FinishedGridCompatible(g: Grid)
    requires IsSquare(g) && Invariant(g) && AllCollapsed(g)
    ensures AllCompatible(g)
  {
    forall x, y, i, j | InBounds(x, y) && InBounds(i, j) && Adjacent(x, y, i, j)
      ensures Compatible(g[x][y].tile, g[i][j].tile)
    {
      assert Allows(g[x][y].tile, g[i][j]);
    }
  }
}
