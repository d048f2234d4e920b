# world-gen: a verified model of the wave-function-collapse plot generator

The program fills a 16 x 16 plot with three kinds of terrain (River, Wasteland
and Farmland). It uses wave function collapse. Every cell starts as a
*superposition* listing all three kinds. The generator repeats one round until
no open cell is left:

- find the open cells whose candidate list is shortest (lowest entropy);
- pick one of them at random and collapse it to a random candidate;
- propagate from it: each open cell among its eight neighbours keeps only the
  kinds that the neighbour table allows next to what the collapsed cell may be.

The finished grid is turned into a plot of plain tiles.

The model has four modules, one per layer of `src/main.rs`:

- `Tiles` (`tiles.dfy`) holds the tile kinds and the neighbour table.
- `Waves` (`waves.dfy`) holds the cell state, the default state, the union of
  neighbour tables ("possibilities") and the order-preserving filter of a
  candidate list.
- `Grids` (`grids.dfy`) holds the grid as a value, indexed `g[x][y]` like the
  source. It specifies one propagation (`Propagate`), one collapse step (`Step`)
  and a run of steps (`Run`). It also holds the invariant that makes every run
  succeed: every open cell still lists Wasteland, and every collapsed cell
  tolerates its neighbours.
- `Generator` (`generator.dfy`) holds the engine itself. `PlotGenerator` owns
  an `array2` of cell states that its methods update in place, as the source
  does. A ghost field `cells` mirrors that array as a `Grids` value. Each
  method is proved against the `Grids` specification: `UpdateNeighbours`
  leaves `Propagate(old(cells), x, y)`, and `Collapse` leaves the end of a legal
  run whose moves it returns as a ghost trace.

Main results:

- Started from the default grid, the collapse loop never reaches its "no valid
  state" error. It stops after at most 256 rounds, with every cell collapsed
  and every pair of neighbours allowed by the table.
- The conversion into a plot therefore never panics.
- The plot the program prints obeys the table (`Generator.Generate`).

## Model

| member | source | states |
|---|---|---|
| Tiles.ValidNeighbours | src/main.rs:38-45 | every kind tolerates itself and Wasteland; River does not tolerate Farmland and Farmland does not tolerate River; Wasteland tolerates every kind |
| Tiles.CompatibleSymmetric | src/main.rs:38-45 | the neighbour table is symmetric: `a` tolerates `b` exactly when `b` tolerates `a` |
| Tiles.IncompatibleIffRiverFarmland | src/main.rs:38-45 | the only forbidden pairs are River next to Farmland, in either order |
| Waves.DefaultState | src/main.rs:205-209 | a fresh cell is open with exactly three candidates, River, Wasteland and Farmland |
| Waves.NeighbourUnion | src/main.rs:104-108 | defines the flattened neighbour tables of a candidate list, concatenated in order with duplicates kept; every candidate is in the union, and so is Wasteland when the list is non-empty |
| Waves.NeighbourUnionMembership | src/main.rs:103-108 | the flattened tables of a candidate list contain a kind exactly when some candidate tolerates it |
| Waves.Possibilities | src/main.rs:103-110 | defines the possibilities of a cell: its tile's table when collapsed, the union of its candidates' tables when open; they contain the tile or every candidate, and Wasteland unless the cell is open with no candidate |
| Waves.PossibilitiesMembership | src/main.rs:103-110 | the possibilities of a collapsed cell are the kinds its tile tolerates; those of an open cell are the kinds some candidate tolerates |
| Waves.Filter | src/main.rs:126-131 | the filtered list is no longer than the input and holds exactly the input's elements that are allowed |
| Waves.FilterIsSubsequence | src/main.rs:126-131 | filtering only deletes: the result is a subsequence of the input, in the same order |
| Waves.FilterCount | src/main.rs:126-131 | every occurrence of an allowed kind is kept and every other occurrence dropped (multiset count) |
| Waves.FilterIdempotent | src/main.rs:126-131 | filtering a second time by the same list changes nothing |
| Grids.InitialGrid | src/main.rs:24-27 | defines the default grid: 16 x 16 with every cell in the default state of src/main.rs:205-209 |
| Grids.Propagate | src/main.rs:112-133 | defines one propagation from (x, y) through `PropagatedCell`: each open cell among the eight around (x, y) becomes the order-preserving filter of its list by `Possibilities(g[x][y])`, and every other cell is unchanged |
| Grids.CollapseAt | src/main.rs:154-159 | defines the collapse of one cell: (x, y) becomes `Collapsed(t)` and every other cell is unchanged |
| Grids.Step | src/main.rs:151-161 | defines one round of the driver loop: `CollapseAt` the chosen cell, then `Propagate` from it; the chosen cell ends collapsed to the chosen tile |
| Grids.Run | src/main.rs:145-163 | defines the grid reached by a sequence of rounds, applying `Step` move by move, for a run in which each move is legal (an open cell of minimal entropy and one of its candidates) |
| Grids.PropagateFrame | src/main.rs:112-133 | propagation changes only open cells among the eight around (x, y); the source cell, collapsed cells and farther cells are unchanged |
| Grids.PropagateNeighbour | src/main.rs:103-132 | an open neighbour stays open and keeps a kind exactly when it had it and the source cell's tile, or one of its candidates, tolerates it |
| Grids.PropagateShrinks | src/main.rs:126-131 | open cells stay open, and each new candidate list is an order-preserving sublist of the old one, never longer |
| Grids.PropagateIdempotent | src/main.rs:112-133 | propagating a second time from the same cell changes nothing |
| Grids.PropagateOpenCells | src/main.rs:126-132 | propagation neither collapses nor reopens any cell |
| Grids.OpenCellsBound | src/main.rs:26 | supporting lemma for the 256-round bound of `Collapse`: a grid of the generator's 16 x 16 shape has at most 256 open cells |
| Grids.RankInjective | src/main.rs:58-59 | supporting lemma for the sweep order and the round bound: the position `y * 16 + x` determines the cell |
| Grids.StepOpenCells | src/main.rs:151-161 | a legal round closes exactly its chosen cell: the open set loses that cell and nothing else |
| Grids.RunExtend | src/main.rs:145-162 | a legal run followed by a move legal at its end is a legal run ending one step later |
| Grids.RunOpenCells | src/main.rs:145-162 | after a legal run of k rounds, exactly k fewer cells are open |
| Grids.InitialInvariant | src/main.rs:205-209 | the default grid satisfies the invariant, and all its cells are open |
| Grids.StepPreservesInvariant | src/main.rs:151-161 | collapsing an open cell to a candidate and propagating from it keeps every open cell listing Wasteland and every collapsed cell tolerating its neighbours |
| Grids.RunPreservesInvariant | src/main.rs:145-162 | a legal run from a grid satisfying the invariant keeps it |
| Grids.InvariantNoContradiction | src/main.rs:153-158 | under the invariant an open cell always has a candidate, so the random pick among them cannot come back empty |
| Grids.FinishedGridCompatible | src/main.rs:145-164 | a fully collapsed grid that satisfies the invariant has every pair of neighbours allowed by the table |
| Generator.NeighbourOffsets | src/main.rs:89-100 | the offsets array has eight slots; slot k holds a non-zero offset in {-1, 0, 1}^2 and the counter's value when that offset is written is k |
| Generator.OffsetIndexInjective | src/main.rs:91-99 | different offsets are written by different counter values |
| Generator.OffsetsExactlyTheEight | src/main.rs:89-100 | the filled array holds every offset of {-1, 0, 1}^2 except (0, 0), each exactly once |
| Generator.SweepCell | src/main.rs:60-75 | supporting lemma for `FindLowestEntropy`: in each arm of the match (collapsed, lower entropy, equal entropy, higher entropy) the sweep's knowledge extends by one cell |
| Generator.SweepComplete | src/main.rs:58-79 | supporting lemma for `FindLowestEntropy`: after all 256 cells are read, the list holds exactly the open cells of minimal entropy, and is empty exactly when every cell is collapsed |
| Generator.PlotGenerator.constructor | src/main.rs:24-27 | the default generator is 16 x 16 with every cell in the default state |
| Generator.PlotGenerator.FindLowestEntropy | src/main.rs:54-80 | returns exactly the open cells of minimal entropy, each once, strictly in sweep order (y outside, x inside); empty exactly when every cell is collapsed |
| Generator.PlotGenerator.UpdateNeighbours | src/main.rs:84-134 | the grid after the call is `Propagate` of the grid before it |
| Generator.PlotGenerator.CollapseCell | src/main.rs:151-161 | fails with "no valid state" exactly when the cell has no candidate, and then changes nothing; otherwise it picks a candidate and the grid becomes one `Step` with it |
| Generator.PlotGenerator.Collapse | src/main.rs:145-164 | the rounds form a legal run ending in the final grid, one cell closed per round, at most 256 rounds; Ok exactly when every cell is collapsed; an error names an open minimal-entropy cell without candidates; from a grid satisfying the invariant the result is Ok and all neighbours are compatible |
| Generator.PlotGenerator.IntoPlot | src/main.rs:166-178 | Ok exactly when every cell is collapsed, and then the plot holds each cell's tile; otherwise the error names the first open cell in sweep order |
| Generator.Generate | src/main.rs:212-216 | the default generator, collapsed and turned into a plot, never fails, and the plot obeys the neighbour table everywhere |

## Left out

- Tile names and printing are not modelled: `Tile::as_str`, both `Display` implementations, and the `println!` in `main` (src/main.rs:30-36, 187-203, 218). They are output only.
- Randomness is not modelled (`rand`, src/main.rs:2, 149, 157). The two random choices are nondeterministic picks, and every property holds for every pick.
- The unused four-neighbour offset array `_neighbours` (src/main.rs:86) is not modelled, because nothing reads it.
- `Plot::default` and `Tile::default` (src/main.rs:13-16, 181-185) appear only as the Wasteland fill of the plot buffer that `IntoPlot` overwrites.
- The two aborts of the program become returned errors. `expect("No valid state possible")` at src/main.rs:158 becomes `Err(NoValidState(x, y))`, and the `panic!` at src/main.rs:172 becomes `Err(NotCollapsed(x, y))`. The program aborts at those points. The model returns instead, with the grid as it was before the failing round (`CollapseCell`) or unchanged (`IntoPlot`). From the default generator, neither error can occur (`Generator.Generate`).
- Generator.PlotGenerator.UpdateNeighbours: its contract states the new grid only through `Grids.Propagate`. The frame and the per-neighbour filtering are lemmas about `Propagate` (`Grids.PropagateFrame`, `Grids.PropagateNeighbour`) rather than clauses of the method.
- Generator.PlotGenerator.CollapseCell: in the source, the collapse loop skips its `if let` when the chosen cell is already collapsed. That branch cannot run, because the sweep only returns open cells, so the method requires an open cell instead.
- Machine integers are unbounded here. The sweep's starting entropy is `usize::MAX`. Every candidate list is bounded by `isize::MAX`, as for any Rust vector, so no list reaches that starting value. The signed offset arithmetic of src/main.rs:114-123 cannot overflow for coordinates below 16.
- The doc comment at src/main.rs:53 says cells with one candidate are skipped. The code does not skip them: a one-candidate list is an ordinary open cell, and an empty list has entropy 0. The model follows the code.
