# Path planners on an occupancy grid

This project models the four path planners of the `pathfinder` crate:

- two variants of the **grassfire** wave;
- the batched **A\*** search;
- two **rapidly-exploring random trees** in `tree.rs` (RRT and RRT\*);
- the simpler tree in `rrt.rs`.

It then proves what each planner guarantees about the path it returns and about the area it leaves behind.

**The area.** Every planner works on one flat `u64` area with `rows * cols` entries, stored column-major: cell `(row, col)` sits at index `col * rows + row`. An obstacle holds `u64::MAX`; every other cell starts at `0`.

- **Grassfire** writes wave labels into the area: the end gets `1`, and each neighbour gets one more than the cell it was reached from. It then reads a path back from the start by stepping to a 4-neighbour whose label is one lower.
  - Version 1 sweeps the whole grid until nothing changes or the start is labelled.
  - Version 2 expands only the cells labelled in the previous round.
- **A\*** expands, round by round, every frontier cell whose estimate is minimal.
  - It discovers or re-links the up to eight neighbours of each expanded cell.
  - It writes their estimates into the area.
  - It reads the path back from the end through the `prev` links.
- **The trees** grow one node per round.
  - Each existing node proposes a step of at most ten cells towards a random sample.
  - The node nearest to the sample whose step is free of obstacles on a Bresenham line wins.
  - A step that lands within five cells of the end is snapped onto the end.
  - RRT\* attaches the new node to the cheapest reachable node and then rewires the nodes around it.

The modules follow the source files:

- `Grid` holds the area layout.
- `LineOfSight` holds the Bresenham collision test shared by both tree files.
- `Grassfire`, `AStar`, `Tree` and `Rrt` hold the planners.

**Optimality.** The doc comments at grassfire.rs:3, grassfire.rs:57 and a_star.rs:4 call the computed way "optimal":

- Both grassfire versions are proved to return a shortest 4-connected path. For version 1 this rests on a timing invariant over the sweeps (see `Grassfire.Timed`): a walk from the end whose cells come in sweep order is labelled within one sweep, and every step against the sweep order costs one more sweep, so each label is the length of a shortest walk.
- A\* is not proved to return a cheapest path; see `AStar.Calculate` under "Left out".

## Model

| member | source | states |
|---|---|---|
| Grid.CellAt | pathfinder/src/main.rs:86-93 | every position below `rows * cols` is the column-major index of exactly one cell of the grid |
| Grid.IndexInjective | pathfinder/src/main.rs:86-93 | two cells of the grid share an area position only when they are the same cell |
| Grid.IndexDivMod | pathfinder/src/main.rs:86-93 | a cell's row is its position modulo `rows` and its column the position divided by `rows` |
| LineOfSight.TruncHalf | pathfinder/src/tree.rs:351 | Rust's truncating halving of the initial error: half the magnitude rounded down, sign kept |
| LineOfSight.RasterShape | pathfinder/src/tree.rs:340-379 | the cells the Bresenham loop visits start at `p1`, never include `p2`, move one step towards `p2` each time, stay inside the box spanned by the two points and number at most dx + dy; the loop therefore terminates |
| LineOfSight.TraceChain | pathfinder/src/tree.rs:356-377 | the cells visited from any intermediate state form a chain of steps towards `p2`, empty exactly at `p2` |
| LineOfSight.Iteration | pathfinder/src/tree.rs:365-376 | one loop iteration moves the row exactly when `2*err > -dx` and the column exactly when `2*err < dy`, and updates the error as the code does |
| LineOfSight.FreeFromTrace | pathfinder/src/tree.rs:356-378 | the line is free from an intermediate state iff no remaining visited cell is an obstacle |
| LineOfSight.IsCollisionFree | pathfinder/src/tree.rs:340-379 | returns true iff no cell the Bresenham line visits before reaching `p2` is an obstacle |
| Grassfire.Descend | pathfinder/src/grassfire.rs:164-183 | one read-back step moves only to a 4-neighbour whose label is exactly one lower, from a cell that is labelled and not the end |
| Grassfire.DescendNone | pathfinder/src/grassfire.rs:164-183 | the read-back stops exactly at a cell holding 0, 1 or an obstacle, or one without a neighbour labelled one lower |
| Grassfire.FindPath | pathfinder/src/grassfire.rs:150-188 | returns the descent from the start, which is just `[start]` when the start holds 0, 1 or an obstacle |
| Grassfire.DescentLabels | pathfinder/src/grassfire.rs:157-184 | the k-th cell of a descent carries the start's label minus k, and consecutive cells are 4-neighbours |
| Grassfire.ReadBackReachesEnd | pathfinder/src/grassfire.rs:150-188 | on a wave labelling, the descent from a labelled start ends at the end, is a 4-connected walk and is as long as the start's label |
| Grassfire.RelaxWave | pathfinder/src/grassfire.rs:25-47 | relaxing one cell keeps the wave invariant (end is 1, obstacles kept, each label one above a neighbour), writes only cells that held 0 and so never rewrites a label or an obstacle, labels at least one cell iff it reports a change, and, when it changes nothing, leaves the cell settled |
| Grassfire.RelaxCell | pathfinder/src/grassfire.rs:25-47 | the in-place update of one cell's four neighbours equals the pure relaxation step |
| Grassfire.RelaxValues | pathfinder/src/grassfire.rs:27-46 | relaxing a labelled cell writes its label plus one into exactly the 4-neighbours that held 0 and leaves every other cell as it was |
| Grassfire.WalkLength | pathfinder/src/grassfire.rs:23-49 | a walk from the end has one cell more than its distance ahead of the end in sweep order plus twice its number of steps against the sweep order |
| Grassfire.TimedStart | pathfinder/src/grassfire.rs:18 | once the end holds 1, the timing invariant holds before the first visit |
| Grassfire.RelaxTimed | pathfinder/src/grassfire.rs:25-47 | visiting a cell keeps the timing invariant one visit on: every label has the right parity and a neighbour one lower that was labelled in time, and every walk from the end that is due by now ends on a label no larger than its length |
| Grassfire.SweepCell | pathfinder/src/grassfire.rs:25-47 | the visit of one cell keeps the wave and timing invariants and either changes something or leaves the cell settled |
| Grassfire.SweepRow | pathfinder/src/grassfire.rs:24-48 | one row of a sweep keeps the wave and timing invariants; a change in an earlier row stays reported, and without any change every cell up to this row is settled |
| Grassfire.Sweep | pathfinder/src/grassfire.rs:23-49 | a sweep keeps the wave invariant and the timing invariant one sweep on, and writes only cells that held 0, leaving every label and obstacle as it was; it either labels at least one more cell or changes nothing and leaves every labelled cell with all free neighbours labelled |
| Grassfire.TimedShortest | pathfinder/src/grassfire.rs:21-50 | after any number of full sweeps, the label of a labelled start is no larger than the length of any 4-connected walk from the end to the start |
| Grassfire.V1 | pathfinder/src/grassfire.rs:14-55 | after labelling, the area is a wave from the end; an unlabelled start is unreachable from the end; a labelled start yields a walk to the end as long as its label, and no 4-connected walk from the end to the start is shorter, so the path is a shortest one |
| Grassfire.ExpandField | pathfinder/src/grassfire.rs:87-125 | expanding one field writes `value` into its unlabelled neighbours in the order below, above, right, left and queues them |
| Grassfire.ExpandRound | pathfinder/src/grassfire.rs:84-127 | one round turns the layering of the first k labels into the layering of the first k+1, writes only cells that held 0 (no label or obstacle is rewritten), and the queued cells are exactly the new frontier; it changed something iff the frontier is not empty |
| Grassfire.LabelIsDistance | pathfinder/src/grassfire.rs:68-136 | in a layered labelling no 4-connected walk from the end reaches a cell in fewer steps than its label |
| Grassfire.NoWalkToUnreached | pathfinder/src/grassfire.rs:50 | when labelling stops without labelling the start, no walk from the end over free cells reaches the start |
| Grassfire.V2 | pathfinder/src/grassfire.rs:68-136 | as V1, and moreover the returned path is no longer than any 4-connected walk from the end to the start |
| Grassfire.StepAsWritten | pathfinder/src/grassfire.rs:171-181 | the read-back step with the bounds checks `row < rows` and `col < cols` as written: a move only to an adjacent position, an index past the area's end otherwise |
| Grassfire.AsWrittenAgreesInside | pathfinder/src/grassfire.rs:171-181 | away from the last row and column the step as written agrees with the corrected one |
| Grassfire.AsWrittenReadsPastEnd | pathfinder/src/grassfire.rs:171 | on a 2x1 grid labelled [1, 2] the step as written indexes past the area where the corrected one moves to the end |
| Grassfire.TwoByOneWave | pathfinder/src/grassfire.rs:18-49 | that labelling is the one any wave from the top cell leaves on a 2x1 grid |
| AStar.Distance | pathfinder/src/a_star.rs:31-33 | the Manhattan distance to the end is zero exactly at the end |
| AStar.EstimateOvershoots | pathfinder/src/a_star.rs:29-36 | from a diagonal neighbour of the end the estimate counts 20 tenths still to go while the one step left costs 14, so the estimate is not a lower bound |
| AStar.MovesCover | pathfinder/src/a_star.rs:80-87 | the eight moves reach every 8-neighbour of the cell that lies in the grid |
| AStar.MovesDistinct | pathfinder/src/a_star.rs:80-87 | no neighbour is produced by two moves |
| AStar.MoveValid | pathfinder/src/a_star.rs:126-133 | each generated neighbour lies in the grid, is an 8-neighbour, and its step costs 1.0 orthogonally and 1.4 diagonally |
| AStar.CheckSound | pathfinder/src/a_star.rs:91-124 | checking a neighbour keeps every known field linked to a free 8-neighbour with a lower cost, keeps obstacles, and records the neighbour |
| AStar.CheckCheapens | pathfinder/src/a_star.rs:91-115 | checking a neighbour never raises the cost of a known free field, and rewrites its `prev`, cost or estimate only for a strictly lower cost |
| AStar.CheckFrame | pathfinder/src/a_star.rs:91-124 | checking a neighbour changes only that neighbour's field and area entry |
| AStar.CheckQueue | pathfinder/src/a_star.rs:121-123 | a checked neighbour that is not processed yet is queued with its position and estimate |
| AStar.MarkFrame | pathfinder/src/a_star.rs:75-78 | taking a field marks exactly that field processed and changes nothing else |
| AStar.ExpandSound | pathfinder/src/a_star.rs:75-134 | expanding a field keeps the search sound, marks the field processed and queues its unprocessed neighbours |
| AStar.MarkCheapens | pathfinder/src/a_star.rs:75-78 | taking a field changes no link, cost or estimate |
| AStar.CheckUpToCheapens | pathfinder/src/a_star.rs:126-133 | the neighbour checks of one expansion, in order, never raise a known free field's cost and re-link it only for a strictly lower cost |
| AStar.ExpandCheapens | pathfinder/src/a_star.rs:75-134 | expanding a field never raises a known free field's cost and re-links it only for a strictly lower cost |
| AStar.ExpandKnown | pathfinder/src/a_star.rs:80-133 | after expanding a field all its in-grid 8-neighbours are known |
| AStar.CheckField | pathfinder/src/a_star.rs:91-124 | the in-place check equals the pure check of the neighbour on area, fields and queue |
| AStar.NeighboursOf | pathfinder/src/a_star.rs:80-133 | the neighbour list is the eight moves in the source's order, absent where they leave the grid |
| AStar.MinEstimate | pathfinder/src/a_star.rs:64-67 | the minimum estimate of the frontier, or 0 for an empty frontier |
| AStar.ExpandBatch | pathfinder/src/a_star.rs:72-134 | expands exactly the frontier cells with the minimal estimate, each once |
| AStar.ExpandAllCheapens | pathfinder/src/a_star.rs:72-134 | expanding the frontier cells one after the other never raises a known free field's cost and re-links it only for a strictly lower cost |
| AStar.RemoveProcessed | pathfinder/src/a_star.rs:137 | the frontier keeps exactly the cells that were not expanded, with their values |
| AStar.InsertPending | pathfinder/src/a_star.rs:138-140 | queued neighbours are inserted, a later entry for a cell overriding an earlier one |
| AStar.InsertedLast | pathfinder/src/a_star.rs:138-140 | every queued cell ends up in the frontier with the value of its last queue entry |
| AStar.RoundDecreases | pathfinder/src/a_star.rs:59-145 | each round that expands something either processes a new field or shrinks the frontier of processed cells, so the loop terminates |
| AStar.Round | pathfinder/src/a_star.rs:59-145 | one round keeps the search invariant, keeps every known free field known, never raises its cost and re-links it only for a strictly lower cost, and makes progress, or ends with an empty frontier and nothing changed |
| AStar.Unreachable | pathfinder/src/a_star.rs:143-144 | once every known field is processed, no free 8-connected walk leads from a known cell to an unknown one |
| AStar.FindPath | pathfinder/src/a_star.rs:176-199 | the read-back is an obstacle-free 8-connected walk from the end without repeated cells that follows the `prev` links and ends at the start when the end was found, and is `[end]` otherwise |
| AStar.WalkReversed | pathfinder/src/a_star.rs:176-199 | a path read back from the end, reversed, is a free walk from the start |
| AStar.Calculate | pathfinder/src/a_star.rs:24-149 | obstacles stay obstacles; every free cell left showing a value shows the estimate, divided by ten, of the field the search holds for it; every field's estimate is its cost plus its distance to the end, and it links to a free 8-neighbour of lower cost; the result is a free 8-connected walk from the end without repeated cells, and it reaches the start iff the start is connected to the end, being `[end]` otherwise |
| Tree.Budget | pathfinder/src/tree.rs:57 | the node budget is the area size divided by the step distance, capped at 16383 |
| Tree.RangeIsBox | pathfinder/src/tree.rs:255-280 | a cell is in the finish range iff it lies within the radius in both coordinates; the centre is in its own range |
| Tree.NewPositionBetween | pathfinder/src/tree.rs:313-325 | the new position lies between the node and the sample, inside the grid, its distance is the Euclidean one, and a sample within one step is taken as is |
| Tree.NearestIsFirstMinimum | pathfinder/src/tree.rs:83-101 | the strict `last_distance > distance` scan picks nothing iff no node offers a step, and otherwise the first node with the smallest distance |
| Tree.Scan | pathfinder/src/tree.rs:83-101 | the scan returns the nearest offer's distance, parent and snapped position, or nothing when no node offers a step |
| Tree.ScanChoosesNearest | pathfinder/src/tree.rs:83-101 | the chosen node is not at the end, its step is collision-free, and its distance to the sample is minimal among all offering nodes |
| Tree.ScanEdge | pathfinder/src/tree.rs:87-98 | the new edge leaves a node other than the end, and is collision-free unless it was snapped onto the end, in which case the unsnapped step was collision-free and within the finish range |
| Tree.FindFinish | pathfinder/src/tree.rs:397 | the first node at the end, or node 0 when no node is at the end |
| Tree.FindPath | pathfinder/src/tree.rs:392-417 | on a tree whose parents precede their children the read-back terminates and follows parent links from the finish to the root; the path has at least three cells, starts at the finish node and ends at the start |
| Tree.PathEnds | pathfinder/src/tree.rs:392-417 | the path ends at the start and begins at the end when some node reached it |
| Tree.PathWithoutEnd | pathfinder/src/tree.rs:397-410 | without a node at the end the path is the start three times |
| Tree.PathDescends | pathfinder/src/tree.rs:401-409 | along the path the distances decrease, so no node is visited twice |
| Tree.V1Grow | pathfinder/src/tree.rs:103-109 | pushing the scan's node keeps the RRT tree invariant: parents precede children and every edge was grown collision-free |
| Tree.V1PathGrown | pathfinder/src/tree.rs:116-120 | every edge of the returned path was grown from a node other than the end |
| Tree.V1Step | pathfinder/src/tree.rs:83-109 | one round keeps every node in the grid and every earlier node in place, and adds at most one node |
| Tree.V1Run | pathfinder/src/tree.rs:68-110 | the rounds over the samples keep the earlier nodes in place and add at most one node per sample |
| Tree.V1StepTree | pathfinder/src/tree.rs:83-109 | one round keeps the RRT tree invariant |
| Tree.V1RunTree | pathfinder/src/tree.rs:68-110 | the rounds over the samples keep the RRT tree invariant and stay within the node budget |
| Tree.V1RunStuck | pathfinder/src/tree.rs:68-110 | with the start at the end, no round ever adds a node, since the source never grows from a node at the end |
| Tree.GrowV1 | pathfinder/src/tree.rs:83-109 | one round is the round of the rounds' definition (the scan's snapped proposal pushed under the node that made it, or nothing) and keeps the RRT tree invariant |
| Tree.RrtV1 | pathfinder/src/tree.rs:51-123 | the tree is the result of the rounds over the samples, one per sample, from the root alone until the budget is full; it holds at most the node budget, every edge was grown, the drawn edges pair each node with its parent, and the path follows parents from the end (or node 0) to the start |
| Tree.Attach | pathfinder/src/tree.rs:197-207 | the new node gets the first cheapest collision-free parent, or parent 0 at distance 0 when none is free |
| Tree.AttachIsCheapest | pathfinder/src/tree.rs:197-207 | no node with a free line to the new position gives a shorter distance to the start than the chosen parent |
| Tree.Rewire | pathfinder/src/tree.rs:215-223 | each node in range with a free line whose distance would shrink through the new node is re-parented to it |
| Tree.RewireOneShortens | pathfinder/src/tree.rs:212-223 | rewiring keeps the position and never lengthens a node's distance; a node is re-parented only when it differs from the new node in position, lies in the rewire range around it, gets a strictly shorter distance, namely the new node's distance plus the step between them, and is linked to the new node by a free line |
| Tree.V2Attach | pathfinder/src/tree.rs:197-212 | pushing the attached node keeps the RRT\* invariant: ranked parents, and each node linked by a free line at a distance no lower than its parent's plus the step (or the unchecked root link of a node at the end) |
| Tree.V2Rewire | pathfinder/src/tree.rs:215-223 | rewiring keeps the RRT\* invariant, all positions, and only lowers distances |
| Tree.V2Step | pathfinder/src/tree.rs:176-223 | one round keeps every earlier node's position and adds at most one node |
| Tree.V2StepKeeps | pathfinder/src/tree.rs:176-223 | one round keeps the RRT\* invariant and every position, never lengthens a path, and, when some node offers a step, appends exactly the node the second scan makes of the snapped proposal (parent and distance of the cheapest free line, or the root at 0), untouched by the rewiring |
| Tree.V2Run | pathfinder/src/tree.rs:163-230 | the rounds over the samples keep the earlier nodes' positions and add at most one node per sample |
| Tree.V2RunTree | pathfinder/src/tree.rs:163-230 | the rounds over the samples keep the RRT\* invariant, every position and stay within the node budget, and never lengthen a path |
| Tree.V2RunStuck | pathfinder/src/tree.rs:163-230 | with the start at the end, no round of RRT\* adds a node |
| Tree.Insert | pathfinder/src/tree.rs:197-223 | attaching, pushing and rewiring appends the node the second scan makes and re-links each node as the rewiring rule says |
| Tree.GrowV2 | pathfinder/src/tree.rs:172-224 | one round is the round of the rounds' definition: it keeps the RRT\* invariant, keeps every position, lengthens no path, and adds a node iff some node offers a step |
| Tree.RrtV2 | pathfinder/src/tree.rs:146-243 | the tree is the result of the RRT\* rounds over the samples from the root alone until the budget is full; otherwise as RrtV1 with the RRT\* invariant |
| Rrt.NewPositionBetween | pathfinder/src/rrt.rs:121-133 | the new position lies between the node and the sample, inside the grid, and its distance is the Euclidean one |
| Rrt.Scan | pathfinder/src/rrt.rs:68-87 | the scan returns the nearest offer and its snapped position, and reports the snap iff the step landed in the finish range |
| Rrt.ScanChoosesNearest | pathfinder/src/rrt.rs:68-87 | the chosen node's step is collision-free and its distance to the sample is minimal among all offering nodes |
| Rrt.Grow | pathfinder/src/rrt.rs:89-96 | pushing the scan's node keeps every edge grown collision-free (or snapped from a free step in range); the node is the end iff the step landed in range |
| Rrt.Step | pathfinder/src/rrt.rs:57-96 | one round keeps every node in the grid and every earlier node in place, and adds at most one node |
| Rrt.Run | pathfinder/src/rrt.rs:53-97 | the rounds over the samples keep the earlier nodes in place and add at most one node per sample |
| Rrt.RunGrown | pathfinder/src/rrt.rs:53-97 | the rounds over the samples keep every edge grown and stay within the node budget |
| Rrt.Round | pathfinder/src/rrt.rs:57-96 | one round is the round of the rounds' definition, keeps every edge grown, and reports a snap only for a pushed node at the end; the tree reaches the end iff it did before or the round snapped |
| Rrt.ReachedSnoc | pathfinder/src/rrt.rs:91-95 | `found_end` becomes true exactly when a node at the end is pushed |
| Rrt.GrownRanked | pathfinder/src/rrt.rs:195-220 | the grown tree satisfies the read-back's requirement that parents precede children |
| Rrt.PathFollowsEdges | pathfinder/src/rrt.rs:103-106 | consecutive path cells are drawn tree edges, and each grown one was collision-free |
| Rrt.V1 | pathfinder/src/rrt.rs:28-107 | the tree is the result of the rounds over the samples from the root alone until the budget is full; it holds at most the node budget, every edge was grown, `found_end` holds iff a node reached the end, and the path follows parents from the end to the start |

## Left out

- I/O, timing (`Instant`) and `println!` are not modelled. The `found_end` flag of `tree.rs` only prints, so it has no counterpart there.
- The random number generator is not modelled. The samples are a parameter (a sequence), and the tree loops also stop when the samples run out. The source loops until the node budget is full.
- When the area has fewer than ten cells, the node budget is 0 and the source never terminates; the model stops with the samples.
- When the start is the end, `rrt_v1` and `rrt_v2` in `tree.rs` never grow from the root (tree.rs:85 and 180 skip every node at the end), so their loops never end once the budget exceeds one node; `main.rs` does not rule this case out. The model stops when the samples run out and returns the root alone, with the path `[start, start, start]` (Tree.V1RunStuck, Tree.V2RunStuck). `rrt.rs` grows from the end too, so it does not have this problem.
- `sqrt`, `atan2`, `cos` and `sin` on `f32` are not modelled. Distances are reals, computed by an `euclid` parameter. The steered position comes from a `steer` parameter. Both carry stated contracts:
  - the distance is non-negative, symmetric and zero exactly on equal cells;
  - the steered position lies between the node and the sample.
- Rounding of `f32` and the `f32::MAX` sentinel are not modelled: "no candidate yet" is `None`.
- `Tree.Budget` treats the `f32` cast of the area size as exact, integer division by ten.
- A\* costs are `f64` in the source. The model counts them in tenths (orthogonal 10, diagonal 14), so `(cost * 10.0) as u64` is exact. The `f64::MAX` cost of an obstacle becomes "always undercut".
- The `HashMap` iteration order of the A\* frontier is not modelled. The model expands the minimal cells in any order and proves the round's result for every order.
- Rrt.NewPositionBetween: does not state that a sample within one step is kept, because `rrt.rs` steers even then, and the trigonometric round trip is not modelled.
- Tree.FindPath: requires the tree invariant that parents precede their children. The growth methods prove it. Without it, the source's read-back could loop.
- `rrt.rs` has its own `find_path`, which does the same as the one in `tree.rs`; the model uses `Tree.FindPath` for both.
- Grassfire.V1 and Grassfire.V2 require an area fresh from `create_area` (only `0` and obstacles), and the start and the end inside the grid. `main.rs` guarantees both (lines 22-25 and 30-40).
- AStar.Calculate: does not promise a cheapest path, although a_star.rs:4 calls it optimal. The search stops once the end shows a value (a_star.rs:144), and its estimate charges 10 tenths per Manhattan step, while a diagonal step costs 14 and covers two Manhattan steps, so the estimate can exceed the true remaining cost (AStar.EstimateOvershoots). The contract states soundness and completeness instead.
- AStar.Calculate also requires that the start and the end are not obstacles (main.rs:32-40 regenerates the area until they are not).
- The `eeros` robot control code, the `beaglebone` test binary, and the command-line parsing, area generation and image export in `main.rs` are not part of this model.

## Findings

| source | as written | input that shows it | evidently intended | confidence | as-written member | corrected member |
|---|---|---|---|---|---|---|
| pathfinder/src/grassfire.rs:171 | the read-back looks below the current cell under `row_num < rows`, which every cell of the grid satisfies (likewise `col_num < cols` at line 177) | a 2x1 area with the end on top, labelled `[1, 2]`, start at the bottom: the look-below reads index 2 of a 2-entry area and panics | `row_num + 1 < rows` and `col_num + 1 < cols` | not executed | Grassfire.AsWrittenReadsPastEnd | Grassfire.Descend |
