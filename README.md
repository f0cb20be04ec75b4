# Turn-cost maze solver, modelled in Dafny

The maze crate reads a grid of `0` (wall) and `1` (passage) characters. It marks the
entry cell (0, 1) as reached at cost 0 from every side, and computes the cheapest way
to the exit (x - 1, y - 2). A path's cost is its number of turns: a straight step adds
0 and a step that changes direction adds 1. The exit is then reported as a cost,
`UNREACHABLE` or `INVALID`.

Two solvers share one data model:

- **Grid and directions.** A `Dir` is a 4-bit set of the flags LEFT = 1, UP = 2,
  RIGHT = 4 and DOWN = 8. A cell is `Empty`, `Wall` or `Calculated(dirs, cost)`; `dirs`
  records the directions in which the cell can be entered at its cost. The grid is a
  flat array with width `w`. Any index at or past its end reads as a wall.
- **Flood.** Double-buffered relaxation. Each round recomputes every cell from its four
  neighbours in the previous round. It also reports which cells improved. The solver
  stops when nothing improved, or when no improvement is cheaper than the exit's cost.
- **A\*.** A max-heap of `(priority, index)` items, ordered so that the lowest priority
  comes out first. Each popped cell relaxes its four neighbours in place. The search
  stops right after the first expansion that leaves the exit reached, or when the heap
  is empty.

Modules:

- `direction.dfy` (`Direction`): the `Dir` bitset, its rotations, `vec` and
  `min_rotation`.
- `grid.dfy` (`Grid`): `usize` addressing, neighbour stepping, input decoding, the seed,
  and the `Evolves` relation that both solvers keep.
- `flood.dfy` (`Flood`): the flood solver.
- `astar.dfy` (`AStar`): the A\* solver.
- `entry.dfy` (`Entry`): the seed-and-report logic of `main`.

Code that updates state in place is modelled in that form:

- The while loops of `min_rotation`.
- The scan over the four sides in `update_field`.
- The buffer writes of `iteration` and the buffer swap of `flood`.
- The in-place relaxation and heap loop of `astar`.

Each such method is proved equal to a specification function, or proved to keep an
invariant. The properties are proved about those functions.

## Behaviour followed from the code

- `vec(from, to)` yields LEFT when `from.x < to.x` and UP when `from.y < to.y`
  (src/maze.rs:59-68). These are the flags of the side the target is entered from, not
  the direction of travel.
- The initial heap computes the heuristic from `vec((x, y), cell)`. Later pushes use
  `vec(cell, (x, y))`. `Direction.VecReversed` proves that the two differ by a half turn.
- `from_input` keeps every character of the first `y` lines, whatever their length. The
  row length is not checked against `x`.
- In the flood, an equal-cost offer that adds no new side stores the offering sides. The
  recorded set of a cell can therefore shrink (`Flood.SettleSameCostNoNewSides`).
- At equal priority the heap pops the item with the largest index.
- The A\* re-pushes a neighbour at equal cost even when its cell does not change
  (`AStar.EqualCostRepush`). That is why its termination is not evident.

## Model

| member | source | states |
|---|---|---|
| Direction.HasAllIsSubset | src/maze.rs:53-55 | `has_all(d, o)` holds exactly when every flag of `o` is a flag of `d` |
| Direction.HasAll | src/maze.rs:53-55 | `has_all`, a bit test; it has no contract of its own, and `Direction.HasAllIsSubset` states its meaning |
| Direction.OrIsUnion | src/maze.rs:127-133 | `a \| b` holds exactly the flags of `a` and of `b`, and it has all of either operand |
| Direction.Or | src/maze.rs:127-133 | `BitOr` on `Dir`; it has no contract of its own, and `Direction.OrIsUnion` and `Direction.HasOr` state its meaning |
| Direction.HasOr | src/maze.rs:127-133 | a single flag is in `a \| b` exactly when it is in `a` or in `b` |
| Direction.OrCommutative | src/maze.rs:127-133 | `a \| b == b \| a` |
| Direction.OrAssociative | src/maze.rs:127-133 | `(a \| b) \| c == a \| (b \| c)` |
| Direction.OrIdempotent | src/maze.rs:127-133 | `a \| a == a` |
| Direction.OrGrowsUnlessContained | src/maze.rs:53-55 | `a \| b == a` exactly when `a.has_all(b)`, so a union adds a flag unless `has_all` holds |
| Direction.TurnedLeft | src/maze.rs:74-79 | turning left moves every flag to the next flag of the ring LEFT→DOWN→RIGHT→UP→LEFT and keeps no other bit |
| Direction.TurnedRight | src/maze.rs:82-88 | turning right moves every flag the other way round the ring, masked to four bits |
| Direction.RotateLeft | src/maze.rs:74-79 | the shift-and-or steps of `left` compute `TurnedLeft` |
| Direction.RotateRight | src/maze.rs:82-88 | the shift, or and mask steps of `right` compute `TurnedRight` |
| Direction.LeftCycle | src/maze.rs:74-79 | `left` takes LEFT to DOWN, DOWN to RIGHT, RIGHT to UP and UP to LEFT |
| Direction.RotationsInverse | src/maze.rs:74-88 | `right(left(d)) == d` and `left(right(d)) == d` for every `d` below 16 |
| Direction.FourTurnsIdentity | src/maze.rs:74-88 | four applications of either rotation give back `d` |
| Direction.RotationFixedPoints | src/maze.rs:74-88 | NONE and ANY are fixed by both rotations |
| Direction.Vec | src/maze.rs:58-71 | LEFT iff `from.x < to.x`, RIGHT iff `from.x > to.x`, UP iff `from.y < to.y`, DOWN iff `from.y > to.y`; NONE iff the points are equal |
| Direction.VecSame | src/maze.rs:58-71 | `vec(p, p) == NONE` |
| Direction.VecAtMostOnePerAxis | src/maze.rs:58-71 | `vec` never holds both LEFT and RIGHT, nor both UP and DOWN |
| Direction.VecReversed | src/maze.rs:58-79 | `vec(b, a) == left(left(vec(a, b)))` |
| Direction.SweepIsLargestDistance | src/maze.rs:103-109 | rotating the anchor one way until every flag of `other` is passed takes the largest ring distance to such a flag, or 0 when there is none |
| Direction.SweepCount | src/maze.rs:103-119 | each `while` loop of `min_rotation` counts exactly that sweep, in its own sense |
| Direction.MinRotationSpec | src/maze.rs:92-124 | the reference value of `min_rotation` never exceeds 4 |
| Direction.MinOverAnchorsBounds | src/maze.rs:95-121 | the minimum is 4 or the cost of one anchor, and no anchor of `d` costs less |
| Direction.MinRotation | src/maze.rs:92-124 | the loops of `min_rotation` compute the reference value: the fewest one-way rotations of one flag of `self` that pass over every flag of `other` |
| Direction.MinRotationOfNone | src/maze.rs:95-101 | `min_rotation` of NONE is 4 |
| Direction.MinRotationAtMostThree | src/maze.rs:92-124 | `min_rotation` of a non-empty `self` is at most 3 |
| Direction.SweepZero | src/maze.rs:103-109 | a sweep needs no rotation exactly when the anchor alone has all of `other` |
| Direction.MinRotationZero | src/maze.rs:92-124 | `min_rotation` is 0 exactly when a single flag of `self` has all of `other`; for example, `other == NONE` |
| Grid.SatMul | src/maze.rs:158 | `saturating_mul`: the product, or `usize::MAX` when it does not fit |
| Grid.SatAdd | src/maze.rs:158 | `saturating_add`: the sum, or `usize::MAX` when it does not fit |
| Grid.WrapDec | src/maze.rs:173-175 | `wrapping_sub(1)`: adding one back modulo 2^64 gives the argument |
| Grid.Idx | src/maze.rs:155-159 | `idx(x, y)` is `y * w + x`, or `usize::MAX` when that does not fit |
| Grid.Coords | src/maze.rs:162-164 | `coords(i)` gives a column below `w` and a row with `row * w + column == i` |
| Grid.CoordsOfIdx | src/maze.rs:155-164 | `coords(idx(x, y)) == (x, y)` when `x < w` and `y * w + x` does not saturate |
| Grid.IdxOfCoords | src/maze.rs:155-164 | `idx(coords(i)) == i` whenever `w > 0` |
| Grid.InDirIdx | src/maze.rs:166-181 | `in_dir_idx` through `coords` and `idx`, with wrapping and saturation; it has no contract of its own, and `Grid.InDirIdxSteps` states its effect on the index |
| Grid.InDirIdxSteps | src/maze.rs:166-181 | UP subtracts `w`, or gives `usize::MAX` from row 0; DOWN adds `w`, saturating; LEFT subtracts 1, or gives `usize::MAX` from column 0; RIGHT adds 1 with no column check; NONE and every multi-flag `Dir` stay in place |
| Grid.Get | src/maze.rs:185-198 | a read gives Wall exactly when the index is at or past the end or the cell is a wall, and the cell itself otherwise |
| Grid.InDir | src/maze.rs:185-190 | `in_dir`: reads the neighbour index through `Grid.Get`, so it is Wall past the end (`Grid.UpFromTopRowIsWall`, `Grid.LeftFromFirstColumnIsWall`) |
| Grid.FieldAt | src/maze.rs:193-198 | `field(x, y)`: reads `idx(x, y)` through `Grid.Get`; `Grid.FieldMut` states that it reads the cell `field_mut` names |
| Grid.FieldMut | src/maze.rs:200-203 | `field_mut` is None exactly when `idx(x, y)` is past the end; otherwise it names the cell that `field` reads |
| Grid.UpFromTopRowIsWall | src/maze.rs:166-190 | UP from row 0 reads a wall |
| Grid.LeftFromFirstColumnIsWall | src/maze.rs:166-190 | LEFT from column 0 reads a wall |
| Grid.RightFromLastColumnWraps | src/maze.rs:172-180 | RIGHT from the last column lands on column 0 of the next row |
| Grid.DecodeRow | src/maze.rs:213-218 | the cells of a text, one per character, '0' a wall and '1' a passage; failure exactly when another character occurs |
| Grid.FromInput | src/maze.rs:206-222 | the grid holds one cell per character of the first `y` lines, in order, and has width `x`; it fails (a panic in the source) exactly when one of those characters is not '0' or '1' |
| Grid.DecodeEncode | src/maze.rs:214-218 | writing walls and passages as '0'/'1' and decoding them gives back the cells |
| Grid.FromInputOfEncoded | src/maze.rs:206-222 | rows written as '0'/'1' lines read back as the concatenated rows, with the given width |
| Grid.Seed | src/maze.rs:265-266 | seeding fails exactly when (0, 1) is past the end of the grid; otherwise (0, 1) becomes `Calculated(ANY, 0)` and nothing else changes |
| Flood.Offer | src/maze/flood.rs:18-21 | a side offers nothing unless its neighbour is reached; otherwise it offers the neighbour's cost, plus 1 unless the neighbour has all of that side |
| Flood.Best | src/maze/flood.rs:9-36 | the best offer over the four sides, `(NONE, 0)` for a wall; `Flood.BestCharacterized` states what it is |
| Flood.Fold | src/maze/flood.rs:23-32 | one arm of the fold over the sides; `Flood.FoldExtends` states that it folds one side into the best so far |
| Flood.BestCharacterized | src/maze/flood.rs:9-36 | the best is `(NONE, 0)` for a wall; its Dir is NONE exactly for a wall or a cell with no reached neighbour; otherwise no side offers less than its cost, and its Dir holds exactly the sides offering that cost |
| Flood.FoldExtends | src/maze/flood.rs:23-32 | one arm of the match folds the next side's offer into the best of the sides scanned so far |
| Flood.UpdateField | src/maze/flood.rs:9-36 | the scan over UP, DOWN, LEFT and RIGHT returns that best |
| Flood.SettleEvolves | src/maze/flood.rs:67-97 | a settled cell is a wall exactly when it was one; a reached cell stays reached, at a cost no higher |
| Flood.Settle | src/maze/flood.rs:67-97 | the match of `iteration`; `Flood.SettleEvolves`, `Flood.SettleReportsImprovement`, `Flood.SettleSameCostNoNewSides` and `Flood.SettleKeepsWall` state its cases |
| Flood.SettleReportsImprovement | src/maze/flood.rs:67-97 | a change `Some(c)` is reported exactly when an empty cell is first reached at `c`, the cost drops to `c`, or the equal cost `c` arrives from a side not recorded; the reported change is the new cost; a new side at the old cost is added to the recorded sides (`udir \| pdir`); a first or cheaper offer records the offering sides alone; a cell reporting nothing, other than at an equal cost, keeps its value |
| Flood.SettleSameCostNoNewSides | src/maze/flood.rs:72-80 | an equal-cost offer from recorded sides only reports no change and stores the offering sides, which may be fewer |
| Flood.SettleKeepsWall | src/maze/flood.rs:67-71 | a wall stays a wall and reports no change |
| Flood.StepAt | src/maze/flood.rs:61-101 | cell `i` of the next round and its change depend only on the previous round and `i`, so the cells can be computed in any order |
| Flood.StepEvolves | src/maze/flood.rs:67-97 | a round keeps every wall, never unreaches a cell and never raises a cost |
| Flood.Iteration | src/maze/flood.rs:52-102 | `iteration` writes the next round into the back buffer and each cell's change into `updates` |
| Flood.LeastChangeIsLeast | src/maze/flood.rs:108 | the least reported change is None exactly when no cell changed; otherwise it is a reported change that none undercuts |
| Flood.IsDoneMeans | src/maze/flood.rs:107-114 | `is_done` holds exactly when nothing changed, or the exit is reached and no change is cheaper than its cost |
| Flood.IsDone | src/maze/flood.rs:107-114 | `is_done`; `Flood.IsDoneMeans` states its meaning over the changes |
| Flood.InitialChanges | src/maze/flood.rs:127 | every cell starts marked as changed at cost 0 |
| Flood.InitialDone | src/maze/flood.rs:125-128 | the first stop test succeeds only for an empty grid or an exit already reached at cost 0 |
| Flood.RoundsEvolve | src/maze/flood.rs:128-133 | across any number of rounds, walls stay walls, reached cells stay reached, and costs never rise |
| Flood.Buffers | src/maze/flood.rs:123-127 | the grid is in front, a back buffer of the same length exists, and every update is `Some(0)` |
| Flood.Round | src/maze/flood.rs:129-130 | one round writes the next grid and its changes into the buffers |
| Flood.Flood | src/maze/flood.rs:122-136 | the result is the grid after `rounds` rounds, and it has the same length; when the loop stops by its own rule, `is_done` holds after `rounds` rounds and after no earlier one |
| AStar.CmpMeaning | src/maze/astar.rs:20-27 | `a > b` exactly when `a` has the lower cost, or the same cost and the larger index; equal only for equal items; `<` is the converse |
| AStar.Cmp | src/maze/astar.rs:20-27 | `QueueItem::cmp`; `AStar.CmpMeaning` and `AStar.CmpTransitive` state the order it defines |
| AStar.CmpTransitive | src/maze/astar.rs:20-27 | the order is transitive |
| AStar.PopSpecIsMax | src/maze/astar.rs:60 | a pop removes exactly one item (by multiset), and no item is greater than it: the lowest cost and, among those, the largest index |
| AStar.MaxIndexIsMax | src/maze/astar.rs:60 | the scan for the pop picks an item that no earlier item exceeds |
| AStar.PopMax | src/maze/astar.rs:60 | the scan standing for `BinaryHeap::pop` returns exactly `PopSpec`: the greatest item and the rest |
| AStar.InitialQueueItems | src/maze/astar.rs:43-58 | every initial item names a reached cell, with priority = its cost + `min_rotation(vec((x, y), coords(idx)))` |
| AStar.InitialQueueOrdered | src/maze/astar.rs:43-58 | the initial items come in strictly increasing index order, so no cell has two |
| AStar.InitialQueueCovers | src/maze/astar.rs:43-58 | every reached cell has an initial item |
| AStar.InitialQueueValid | src/maze/astar.rs:43-58 | every initial item names a reached cell whose cost is no higher than the item's priority |
| AStar.InitialQueueEmpty | src/maze/astar.rs:43-58 | the initial heap is empty exactly when no cell is reached |
| AStar.InitialQueue | src/maze/astar.rs:43-58 | the `filter_map` over the cells; `AStar.InitialQueueItems`, `AStar.InitialQueueOrdered`, `AStar.InitialQueueCovers` and `AStar.InitialQueueEmpty` state what it holds |
| AStar.BuildQueue | src/maze/astar.rs:43-58 | the loop over the cells builds exactly that initial heap |
| AStar.RelaxEvolves | src/maze/astar.rs:76-106 | relaxing one neighbour keeps every wall, never raises a cost and writes no cell other than `next_idx` |
| AStar.RelaxStores | src/maze/astar.rs:78-105 | at an equal cost the neighbour becomes `Calculated(dir \| from, cost)`; when Empty or dearer it becomes `Calculated(from, cost)`; a Wall, an index past the end or a cheaper neighbour pushes nothing and leaves the grid unchanged |
| AStar.Relax | src/maze/astar.rs:71-106 | one move of the `for` loop; `AStar.RelaxEvolves`, `AStar.RelaxPushes` and `AStar.RelaxStores` state its effect |
| AStar.RelaxAt | src/maze/astar.rs:77-106 | the match on the neighbour's cell; `AStar.RelaxStores` states what it writes |
| AStar.Pushed | src/maze/astar.rs:79-85 | the tail of the three updating arms; `AStar.RelaxPushes` bounds the priority it gives |
| AStar.RelaxPushes | src/maze/astar.rs:70-106 | the offered cost is the cell's cost plus 1 unless its Dir has all of `from`; a push happens exactly when `next_idx` is in range and its cell is empty or costs no less; the pushed item names `next_idx`, now reached at that cost, with a priority between that cost and that cost plus 3 |
| AStar.EqualCostRepush | src/maze/astar.rs:78-86 | an equal-cost offer from a recorded side changes no cell, but still pushes an item |
| AStar.RelaxKeepsQueueValid | src/maze/astar.rs:76-106 | after a relaxation, every queued item, old or new, names a reached cell whose cost is no higher than its priority |
| AStar.ExpandKeepsQueueValid | src/maze/astar.rs:70-107 | relaxing all four neighbours keeps the grid evolving and the heap valid |
| AStar.RelaxNeighbour | src/maze/astar.rs:77-106 | the match on the neighbour's cell updates the grid and pushes as the relaxation specifies |
| AStar.Push | src/maze/astar.rs:79-85 | writes the neighbour and returns the item to push, with the heuristic from `vec(coords(next_idx), (x, y))` |
| AStar.RelaxMove | src/maze/astar.rs:71-106 | one iteration of the `for` loop over the four moves |
| AStar.Expand | src/maze/astar.rs:70-107 | the `for` loop relaxes the four moves in order, and appends what they push |
| AStar.PopAndExpand | src/maze/astar.rs:60-107 | the turn is exactly one `SearchStep` of the grid and heap: `PopSpec` then the four moves on the popped cell; the popped index always names a reached cell, so the `continue` is never taken; the grid keeps walls, never raises costs, and the heap stays valid |
| AStar.SearchStep | src/maze/astar.rs:60-107 | one turn of the `while let` loop as a function of the grid and the heap; `AStar.PopAndExpand` states that the loop body computes it |
| AStar.ExpansionsStep | src/maze/astar.rs:60-115 | the state after `n + 1` turns is one `SearchStep` of the state after `n` |
| AStar.Turn | src/maze/astar.rs:60-115 | one turn takes the state after `n` turns to the state after `n + 1`, and reports the `break` test on the target |
| AStar.Loop | src/maze/astar.rs:60-115 | the loop leaves the grid after `expansions` turns; it went on after every earlier turn; it stops at TargetReached exactly when a turn leaves the target reached, at QueueEmpty only with an empty heap, and at OutOfFuel exactly when it would go on |
| AStar.Search | src/maze/astar.rs:35-118 | the result is the grid after `expansions` turns from the initial heap; the loop went on after every earlier turn (heap non-empty, target not reached after any turn); it stops right after the first turn that leaves the target reached, or with an empty heap and the target unreached; it runs out of fuel exactly when it would go on; walls are kept and costs never rise |
| Entry.ClassifyAfterSolving | src/maze.rs:276-280 | a solver that keeps walls and never raises costs cannot change whether the exit is INVALID, and an exit that was reached keeps a cost no higher |
| Entry.Classify | src/maze.rs:276-280 | the final match: Empty is UNREACHABLE, Wall is INVALID, a reached cell prints its cost; `Entry.ClassifyAfterSolving` and `Entry.Run` state how it relates to the seeded grid |
| Entry.Seeded | src/maze.rs:265-266 | decoding and seeding succeed exactly when the text is all '0'/'1' and longer than `x`, and then (0, 1) is `Calculated(ANY, 0)` |
| Entry.Run | src/maze.rs:259-281 | `main` panics on a bad character, on a missing entry cell, or when `x - 1` or `y - 2` underflows; otherwise it prints the classification of the solver's exit cell; it prints INVALID exactly when the seeded exit is a wall; with the flood, the grid is that after `steps` rounds and the run stops at the first round that satisfies `is_done`; with A*, the grid is that after `steps` turns, the loop went on after every earlier turn, and it runs out of fuel exactly when it would go on |

## Left out

- Reading lines from standard input, and `read_xy` (src/main.rs): the model decodes a given sequence of lines. An I/O error on a line is not modelled.
- src/bin.rs: the binary-to-decimal conversion calls a foreign big-number library and is not part of this model.
- The `text_visualize` Display impl and every `println!`: output formatting only. The printed result is modelled as `Entry.Report`.
- The rayon parallelism in `iteration` and `is_done`. Both are modelled as sequential scans. This is exact, because each cell reads only the front buffer and its own index (`Flood.StepAt`).
- `BinaryHeap` internals: the heap is a sequence, and a pop removes a maximal item under the `QueueItem` order. Two items equal under that order are identical, so which one is popped does not matter.
- Costs are unbounded naturals: overflow of a `usize` cost is not modelled. Indices are `usize` on a 64-bit target, with saturation and wrap-around written out.
- Flood.Flood: the loop takes a `fuel` bound on rounds, and termination of the source's unbounded loop is not proved.
- AStar.Search: the loop takes a `fuel` bound on expansions, and termination is not proved (see `AStar.EqualCostRepush`). The heap is modelled as a sequence: `PopSpec` takes out the greatest item, which is unique because items equal under the order are identical, but the order of the remaining items in the sequence is the model's own. An index past the end of the grid cannot be popped from a valid heap; `AStar.SearchStep` skips it, where the source would panic.
- Entry.Run: `x - 1` and `y - 2` are modelled with debug-build semantics (an underflow panics); the release-build wrap-around is not modelled. Run also requires the decoded grid to have fewer than `usize::MAX` cells, which no real allocation can exceed.
- That the reported cost is the cheapest, and that flood and A\* agree: the code does not establish either, and neither is proved here.
