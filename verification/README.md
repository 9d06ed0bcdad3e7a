# Growing-tree maze carving, modelled in Dafny

This project models the maze generator of the `plots` repository:

- **The lattice of wall flags.** `GridMatrix` is a `height × width` array of lattice points. Each point owns two flags:
  - `draw_right` is the segment to its right neighbour.
  - `draw_down` is the segment to the point below.

  A flag that is true is a wall that is still standing.
- **Boxes.** A box is named by its top-left point. `is_carved(row, col)` says whether any of the box's four walls has been cleared.
- **The generator.** `GrowingTree.generate` carves a maze out of a fresh grid. It keeps a frontier list. On each turn it picks a random entry, then does one of two things:
  - If no neighbouring box of that entry is still uncarved, it removes the entry.
  - Otherwise it clears the wall to a random uncarved neighbour and appends that neighbour.
- **The maze as a tree.** A growing-tree generator is meant to leave a spanning-tree maze. The model states this as follows: every two boxes are joined by a route through cleared walls, and exactly one wall fewer is cleared between boxes than there are boxes.
- **Drawing.** The loop in `draw()` turns the finished grid into line segments.

`mazes/sketch_mazes.py` lines 7-148 are a verbatim earlier copy of `GridMatrix.py` and `GrowingTree.py`, under the class name `GrowingTreeMaze`. They are modelled once. The rows below cite both copies where the same member models both.

Modules:

- `Outcomes` (`outcomes.dfy`): Python's exceptions become `Result` values. `IndexError` and `ValueError` are the only two raised here.
- `GridMatrix` (`grid_matrix.dfy`): the lattice, `point_at`, the two setters, `is_carved` and the constructor. Subscripts follow Python: an index in `[-n, n)` is accepted, and a negative one counts from the end.
- `GrowingTree` (`growing_tree.dfy`): `get_uncarved_neighbors` and `carve`. Directions are the one-character tokens `'U'`, `'D'`, `'L'` and `'R'`.
- `Frontier` (`frontier.dfy`): `random.randrange`, `random.choice` and `list.remove`. Randomness is an arbitrary stream of draws `draws: nat -> nat`. The k-th call into `random` uses `draws(k)` reduced into range, so every sequence of choices is covered.
- `Passages` (`passages.dfy`): which walls between boxes are cleared, the routes through them, and the spanning-tree property of a finished maze.
- `Generator` (`generator.dfy`): the frontier loop (`Grow`), `generate` as written (`Generate`) and with a corrected start (`GenerateFromBox`).
- `Drawing` (`drawing.dfy`): the segment-selection loop of `draw()`.

Operations require only `Shaped(g)` (the shape the constructor builds) or `Valid(g)` (that shape plus the forced boundary flags). Every other failure the source can raise is modelled as an error result.

## Model

| member | source | states |
|---|---|---|
| GridMatrix.New | plots/mazes/GridMatrix.py:16-29 | The constructor builds `height` rows of `width` points, and none when a dimension is not positive. Point (r, c) sits at (c·scale, r·scale). All flags are true, except `draw_down` on the last row and `draw_right` on the last column. The copy at mazes/sketch_mazes.py:22-35 is identical. |
| GridMatrix.PyIndex | plots/mazes/GridMatrix.py:38 | A Python subscript into a list of length n is accepted iff it lies in [-n, n). A non-negative one is used as is, and a negative one counts from the end. |
| GridMatrix.PointAt | plots/mazes/GridMatrix.py:37-38 | `point_at` succeeds exactly when both subscripts are accepted and raises IndexError otherwise. In range it returns `matrix[row][col]`. A negative row or column reads the point counted from the end. |
| GridMatrix.WithDraws | plots/mazes/GridMatrix.py:40-44 | Setting one flag of a point gives it the new value and keeps the other flag and both coordinates. |
| GridMatrix.SetDraws | plots/mazes/GridMatrix.py:40-44 | The shared setter body succeeds iff both subscripts are accepted, and raises IndexError otherwise. It sets only the named flag of the resolved point. |
| GridMatrix.PointSetDrawsRight | plots/mazes/GridMatrix.py:40-41 | The setter raises IndexError exactly when the subscript is rejected. Otherwise only `draw_right` of the addressed point changes, to `val`. Dimensions, scale, coordinates and every other flag stay the same. |
| GridMatrix.PointSetDrawsDown | plots/mazes/GridMatrix.py:43-44 | Same as above, for `draw_down`. |
| GridMatrix.IsCarved | plots/mazes/GridMatrix.py:46-64 | An unaddressable (row, col) raises IndexError. A cleared `draw_right` or `draw_down` at the point itself answers true before anything further is read. A false answer means the points below and to the right were both readable. The copy at mazes/sketch_mazes.py:52-70 is identical. |
| GridMatrix.BoxCarvedIff | plots/mazes/GridMatrix.py:55-64 | For a real box, `is_carved` is true iff one of its four walls is cleared: top, left, bottom or right. |
| GridMatrix.EdgeReadsCarved | plots/mazes/GridMatrix.py:55-59 | A point in the last row or column reads as carved. The point past the edge would raise if it were read, so the short circuit is what keeps the query from failing. |
| GridMatrix.WrappedReadsCarved | plots/mazes/GridMatrix.py:55-59 | Row -1 or column -1 wraps round to the last row or column, and so reads as carved. |
| GridMatrix.PastEndRaises | plots/mazes/GridMatrix.py:55-63 | `is_carved` at row `height`, or at column `width` in a readable row, raises IndexError. |
| GridMatrix.ClearDescends | plots/mazes/GridMatrix.py:40-44 | Clearing one flag of a valid grid only lowers flags and keeps the forced boundary. |
| GridMatrix.CarvedMonotone | plots/mazes/GridMatrix.py:55-64 | Once the grid has only lost walls, every box that read as carved still reads as carved. |
| GridMatrix.ClearRightCarvesBothSides | plots/mazes/GridMatrix.py:57-61 | Clearing `draw_right` of (i, j) makes boxes (i, j) and (i-1, j) carved. Every other box answers as before. |
| GridMatrix.ClearDownCarvesBothSides | plots/mazes/GridMatrix.py:59-63 | Clearing `draw_down` of (i, j) makes boxes (i, j) and (i, j-1) carved. Every other box answers as before. |
| GridMatrix.FreshBoxesUncarved | plots/mazes/GridMatrix.py:22-29 | Every real box of a freshly constructed grid reads as uncarved. |
| GrowingTree.WallShared | plots/mazes/GrowingTree.py:40-56 | Stepping in a direction and then in the opposite one returns to the start. `carve(p, d)` clears the same flag as `carve` from the neighbour back towards p. |
| GrowingTree.GetUncarvedNeighbors | plots/mazes/GrowingTree.py:23-37 | The neighbour query succeeds exactly when all four `is_carved` calls answer. Otherwise it raises their IndexError. |
| GrowingTree.Collect | plots/mazes/GrowingTree.py:34-36 | The loop over the cases passes on the IndexError of an `is_carved` query and raises nothing else. Its list is described by the rows below. |
| GrowingTree.CollectAnswers | plots/mazes/GrowingTree.py:34-36 | The scan finishes iff none of its `is_carved` queries raises. |
| GrowingTree.CollectSound | plots/mazes/GrowingTree.py:34-36 | Each listed pair (d, n) has n as the neighbour in direction d, and n is uncarved. |
| GrowingTree.CollectComplete | plots/mazes/GrowingTree.py:34-36 | Every direction whose neighbour is uncarved appears in the list. |
| GrowingTree.CollectSorted | plots/mazes/GrowingTree.py:28-36 | Entries appear in the order of the cases scanned. |
| GrowingTree.NeighborsListedExactly | plots/mazes/GrowingTree.py:27-37 | The list holds exactly the uncarved neighbours among (r-1, c), (r+1, c), (r, c-1) and (r, c+1), each paired with its direction, in the order U, D, L, R. |
| GrowingTree.Carve | plots/mazes/GrowingTree.py:40-58 | An unknown token raises ValueError. IndexError is raised for 'U' at row 0, 'L' at column 0, 'D' at row == height and 'R' at column == width, and is the only other error. Success clears exactly one flag and leaves everything else unchanged: U clears (r,c).right, D clears (r+1,c).right, L clears (r,c).down and R clears (r,c+1).down. The subscripts resolve as Python resolves them, so from a point off the grid the flag cleared is the wrapped one. The copy at mazes/sketch_mazes.py:108-126 is identical. |
| GrowingTree.CarveAboveGridWraps | plots/mazes/GrowingTree.py:41-44 | From the row above the grid, 'U' is not rejected: the subscript -1 wraps round, and the top wall of the last row's point in that column is cleared. |
| GrowingTree.CarveRaisesExactlyAtEdge | plots/mazes/GrowingTree.py:45-56 | From a point of the grid, `carve` raises exactly when the wall lies outside the grid. The off-by-one 'D' and 'R' guards are never what raises. |
| GrowingTree.UncarvedIsBox | plots/mazes/GrowingTree.py:29-35 | A neighbour that reads as uncarved is a real box, never a wrapped or edge point. |
| GrowingTree.NeighborsAreBoxes | plots/mazes/GrowingTree.py:34-36 | Every listed neighbour is a real box. |
| GrowingTree.NeighborQueryAnswers | plots/mazes/GrowingTree.py:28-35 | From a real box, each of the four neighbour queries answers without raising. |
| GrowingTree.NeighborQueryRaisesOffBox | plots/mazes/GrowingTree.py:28-35 | For a point of the grid, the neighbour query succeeds iff the point is a real box. |
| GrowingTree.CarveTowards | plots/mazes/GrowingTree.py:72-74 | Carving towards an uncarved neighbouring box succeeds, and the wall was standing. Only that flag changes, the grid stays valid, and both boxes are then carved. |
| GrowingTree.CarveTouchesOnlyTwoBoxes | plots/mazes/GrowingTree.py:72-73 | Such a carve leaves the `is_carved` answer of every other box unchanged. |
| Frontier.RandRange | plots/mazes/GrowingTree.py:63-64 | `randrange(0, n)` yields a value in [0, n), or raises ValueError when the range is empty. |
| Frontier.Choice | plots/mazes/GrowingTree.py:67-72 | `random.choice` yields an element of the list, or raises IndexError when it is empty. |
| Frontier.ChoiceReachesEveryIndex | plots/mazes/GrowingTree.py:67-72 | Every position of a non-empty list can be chosen. |
| Frontier.Remove | plots/mazes/GrowingTree.py:70 | `remove(x)` succeeds iff x occurs and raises ValueError otherwise. The list loses one element, and its multiset loses exactly one x. |
| Frontier.RemoveDeletesFirst | plots/mazes/GrowingTree.py:70 | `remove` deletes the first occurrence and keeps the rest in order. |
| Frontier.RemoveKeepsOthers | plots/mazes/GrowingTree.py:70 | After `remove(x)`, an element is present iff it was present and is not x, or x occurred twice. |
| Generator.EmptyListExhausted | plots/mazes/GrowingTree.py:68-71 | A box is removed from the frontier only when every adjacent box is carved. |
| Generator.ExhaustedMonotone | plots/mazes/GrowingTree.py:66-74 | An exhausted box stays exhausted while walls are only cleared. |
| Generator.CarveShrinksUncarved | plots/mazes/GrowingTree.py:72-74 | Carving into an uncarved box strictly shrinks the set of uncarved boxes. |
| Generator.ClosedCoversAllBoxes | plots/mazes/GrowingTree.py:66-74 | A set of boxes that holds one box and is closed under adjacency holds every box. |
| Generator.VisitedCoversAll | plots/mazes/GrowingTree.py:66-74 | Suppose the visited boxes are all exhausted and include every carved box. Then every box is visited, and every box is carved when there are two or more. |
| Generator.RemoveTurn | plots/mazes/GrowingTree.py:68-71 | A turn with no uncarved neighbour removes one occurrence of the chosen entry and keeps the loop invariant. |
| Generator.ListedNeighbor | plots/mazes/GrowingTree.py:72 | The entry `random.choice` picks from the neighbour list names a direction and the uncarved box one step that way. |
| Generator.CarveTurn | plots/mazes/GrowingTree.py:72-74 | A carving turn succeeds and keeps the loop invariant. It strictly shrinks the set of uncarved boxes, so the loop terminates under the measure (uncarved boxes, frontier length). |
| Generator.Grow | plots/mazes/GrowingTree.py:65-74 | The loop raises IndexError iff the start is not a real box. Otherwise it terminates with a valid grid that has only lost walls, and every visited box is exhausted. Every visited box is linked to the start through cleared walls. The number of cleared walls between boxes grew by one for each box visited after the start. Every flag outside the walls between boxes, the outer frame included, is as it was, and the draw counter only advances. Started on a grid where no other box is carved, it visits every box, and with two or more boxes it carves all of them. |
| Passages.WallBetweenSymmetric | plots/mazes/GrowingTree.py:40-56 | Two adjacent boxes name the same wall between them, whichever of the two `carve` starts from. |
| Passages.OpenSymmetric | plots/mazes/GrowingTree.py:40-56 | A cleared wall between two boxes is a passage both ways. |
| Passages.OpenMonotone | plots/mazes/GrowingTree.py:73 | A passage stays open while walls are only cleared. |
| Passages.LinkedSelf | plots/mazes/GrowingTree.py:60-74 | Every box is reachable from itself. |
| Passages.LinkedStep | plots/mazes/GrowingTree.py:72-74 | A passage to a box that reaches c gives a route to c. |
| Passages.LinkedSymmetric | plots/mazes/GrowingTree.py:72-74 | A route from a to b, reversed, is a route from b to a. |
| Passages.LinkedTrans | plots/mazes/GrowingTree.py:72-74 | Routes from a to b and from b to c join into a route from a to c. |
| Passages.OpenWallsAreOpen | plots/mazes/GridMatrix.py:55-64 | The wall between two adjacent boxes is among the cleared walls between boxes iff it is cleared. |
| Passages.OpenWallsMember | plots/mazes/GridMatrix.py:55-64 | A wall is among the cleared walls between boxes iff its flag is lowered and it separates two boxes rather than bounding the grid. |
| Passages.RewriteKeepsOtherWalls | plots/mazes/GridMatrix.py:40-44 | Lowering one flag leaves every other wall's membership among the cleared walls unchanged. |
| Passages.ClearOpensOne | plots/mazes/GrowingTree.py:72-73 | Carving towards a neighbouring box clears a wall that was standing. It adds exactly that wall to the cleared walls between boxes, so their number grows by one. |
| Passages.RowBoxesCount | plots/mazes/GrowingTree.py:60-74 | A helper for the wall count of a finished maze: a row of m boxes holds m boxes. |
| Passages.BoxesAboveCount | plots/mazes/GrowingTree.py:60-74 | A helper for the wall count of a finished maze: the first k rows of m boxes hold k·m boxes. |
| Passages.BoxesAboveSplit | plots/mazes/GrowingTree.py:60-74 | A helper for the wall count of a finished maze: the first k rows are the first k-1 rows plus row k-1, and the two parts do not overlap. |
| Passages.BoxCount | plots/mazes/GridMatrix.py:22-25 | A grid of at least one point each way has (height - 1)·(width - 1) boxes. |
| Passages.WallOfIsInterior | plots/mazes/GrowingTree.py:72-73 | The wall between a box and a neighbouring box separates two boxes; it is never part of the outer frame. |
| Passages.ClearKeepsFrame | plots/mazes/GrowingTree.py:72-73 | Clearing the wall between two boxes leaves every flag outside the walls between boxes as it was. |
| Passages.FreshFrameStands | plots/mazes/GridMatrix.py:22-29 | If a grid built by the constructor has kept its frame, the frame is standing. That is the top walls of the first row of boxes, the bottom walls of the last row, the left walls of the first column and the right walls of the last column. |
| Passages.SpanningTreeWallCount | plots/mazes/GrowingTree.py:60-74 | A finished maze of at least one box has (height - 1)·(width - 1) - 1 cleared walls between boxes. |
| Generator.RemoveKeepsTree | plots/mazes/GrowingTree.py:69-71 | Removing a frontier entry keeps the tree invariant. Before the first carve, the frontier still holds only the start. |
| Generator.CarveReachesNewBox | plots/mazes/GrowingTree.py:72-74 | The box a carve reaches has not been visited before, so the visited set grows by one. |
| Generator.CarveLeavesCarved | plots/mazes/GrowingTree.py:72-74 | After a carve every visited box is carved, the start included. |
| Generator.CarveHangsNewBox | plots/mazes/GrowingTree.py:72-74 | The new box hangs from the box it was carved from, through the wall just cleared, one level deeper. Every older parent link stays open. |
| Generator.CarveGrowsTree | plots/mazes/GrowingTree.py:72-74 | A carving turn keeps the tree invariant. One box is added to the visited set and one wall to the cleared walls between boxes. |
| Generator.ParentsReachStart | plots/mazes/GrowingTree.py:66-74 | Following parent links from any visited box reaches the start through cleared walls. |
| Generator.FrontierEmptied | plots/mazes/GrowingTree.py:66 | When the frontier empties, every visited box is exhausted and linked to the start. If only the start could be carved at the outset, every box has been visited. |
| Generator.NoBoxCarvedNoOpenWall | plots/mazes/GridMatrix.py:55-64 | On a grid where no box reads as carved, no wall between boxes is cleared. |
| Generator.GrownIsSpanningTree | plots/mazes/GrowingTree.py:60-74 | Start from an uncarved grid. Suppose every box was visited and linked to the start, and one wall was cleared per box after the first. Then the maze is a spanning tree. |
| Generator.FreshHasNoCarvedBox | plots/mazes/GridMatrix.py:22-29 | A constructed grid has no carved box, so `generate` visits every box of it and, with two or more boxes, carves every one. |
| Generator.Generate | plots/mazes/GrowingTree.py:60-74 | As written, with `draws(0)` and `draws(1)` as the two start draws. A non-positive dimension raises ValueError. Otherwise the run succeeds iff the start lands off the last row and column, and IndexError is the only failure. A successful run lowers flags only and keeps the outer frame as it was. On a fresh grid it leaves a spanning tree of the boxes, and with two or more boxes it carves every box. The copy at mazes/sketch_mazes.py:128-142 is identical. |
| Generator.LastColumnStartRaises | plots/mazes/GrowingTree.py:63-68 | A start in the last column makes the first neighbour query raise IndexError. |
| Generator.LastRowStartRaises | plots/mazes/GrowingTree.py:63-68 | A start in the last row makes the first neighbour query raise IndexError. |
| Generator.GenerateFromBox | plots/mazes/GrowingTree.py:63-64 | With the start drawn from the real boxes, generation succeeds iff the grid has at least one box, and raises ValueError otherwise. A successful run keeps the outer frame as it was. On a fresh grid it leaves a spanning tree of the boxes, and with two or more boxes it carves every box. |
| Drawing.DrawSegments | mazes/sketch_mazes.py:156-179 | On a valid grid the loop never reads past the last row or column and emits exactly `Segments(g)`. Failure, possible only on a grid without the forced flags, is IndexError. |
| Drawing.DrawRow | mazes/sketch_mazes.py:157-179 | One pass of the inner loop appends exactly the lines of that row, left to right, on a valid grid. |
| Drawing.RowsSegmentsMembership | mazes/sketch_mazes.py:156-157 | A segment is emitted iff some point of the grid contributes it. |
| Drawing.SegmentFrom | mazes/sketch_mazes.py:158-179 | Each segment from point (r, c) starts there. It ends one step right only if `draw_right` is set, or one step down only if `draw_down` is set. |
| Drawing.DrawnRightExactlyWhenFlagged | mazes/sketch_mazes.py:158-168 | The segment from (r, c) to (r, c+1) is drawn iff `draw_right` of (r, c) is set. |
| Drawing.DrawnDownExactlyWhenFlagged | mazes/sketch_mazes.py:169-179 | The segment from (r, c) to (r+1, c) is drawn iff `draw_down` of (r, c) is set. |
| Drawing.CarvedGridStaysPlaced | mazes/sketch_mazes.py:31 | Carving moves no point: every point stays at (c·scale, r·scale). |

## Left out

- SVG output is not modelled: `svgwrite.Drawing`, the stroke attributes of `Line`, `save`, and the click command line in `plots/scripts/mazes.py`. They are I/O. A drawn line is modelled as its two end points.
- `setup.py` is not modelled; it is packaging metadata.
- Curve smoothing and point jitter are not modelled; the modelled files contain no such code.
- Probabilities and seeding are not modelled. Each call into `random` reads the next value of an arbitrary stream of draws, so the model covers every possible run but says nothing about how likely a maze is.
- `scale` is an integer. Python accepts any number, but real-valued coordinates would add nothing to the carving.
- `__str__`, `get_width`, `get_height` and `get_grid` are not modelled. They only format or return stored fields.
- The `GrowingTree` wrapper object is folded into the grid. Its `_width` and `_height` are the grid's own `width` and `height`.
- Constructor arguments: a dimension below 1 is not rejected, and a negative subscript in `point_at` is not rejected either; it wraps round. The constructor builds an empty grid in the first case.
- Direction tokens are single characters. `carve` compares its argument with four one-letter strings, and any other value raises ValueError, as modelled.
- Generator.Generate: the guarantee that every box is carved is stated for a grid on which no box is carved yet. That is the only grid `generate` is ever given.

## Findings

| source | as written | input that shows it | evidently intended | confidence | as-written member | corrected member |
|---|---|---|---|---|---|---|
| plots/mazes/GrowingTree.py:63-64 | The start is drawn from `randrange(0, width)` and `randrange(0, height)`. That includes the last column and last row, which are lattice points but not boxes. The first `get_uncarved_neighbors` then reads one past the grid (`is_carved(row, width)` or `is_carved(height, col)`) and raises IndexError. The same holds for mazes/sketch_mazes.py:131-132. | `GrowingTree(40, 58, 5)` whose first draw gives `start_col = 39`; or a 3 × 3 grid with every draw equal to 2. | Draw the start from `randrange(0, width - 1)` and `randrange(0, height - 1)`, the real boxes. | not executed | Generator.Generate, Generator.LastColumnStartRaises, Generator.LastRowStartRaises | Generator.GenerateFromBox |
