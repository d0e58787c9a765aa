# Recursive-backtracker maze carver, modelled in Dafny

This project models `MazeGen2`, a Unity behaviour that carves a *perfect
maze* on a `width x depth` grid of cells. Each cell has a visited flag and
four walls: back (-Z), front (+Z), left (-X) and right (+X). `Start` works
in four steps:

1. It fills the grid with newly instantiated cells. The model assumes each
   starts unvisited with all four walls up (`Cells.Fresh`).
2. It takes corner (0,0) as the entrance and corner (width-1, depth-1) as the exit.
3. It runs the recursive traversal `GenerateMaze` from the entrance. Each call
   marks its cell visited and opens the wall back to its parent. It then keeps
   picking a random unvisited neighbour and recursing into it until none is left.
4. It opens the entrance's left wall and the exit's right wall.

The model is imperative where the source is. `MazeGen2` is a class whose
grid is an `array2<Cell>`, and the traversal is a recursive method with a
loop. The carver does only two things to a cell: `Visit` and `Clear*Wall`.
So a cell is a value (`Cells.Cell`) held in its grid slot, and those two
operations are functions that return the updated value.

Two ghost fields record the run:
- `order`: the cells in the order they were visited.
- `edges`: one (previous, current) pair for each `ClearWalls` call.

The class invariant `Valid` ties the grid to this log:
- A visited flag is set exactly for the cells in `order`.
- A wall is down exactly when `edges` records an opening across it.

Module `SpanningTree` defines the carving log step by step, the way the
carver builds it: the visit of the entrance, then steps that each visit a
new in-bounds neighbour of an already visited cell and open the wall between
them. It proves that such a log is a spanning tree of the visited cells:
- There is one opening fewer than visited cells (`|edges| == |order| - 1`).
- Every visited cell is connected to the first visit (`TreeLogConnected`).
- No wall is opened twice (`EdgesDistinct`).
- The openings contain no cycle (`NoCycle`).

Module `Geometry` proves the grid facts that the main result needs:
- The grid has `width * depth` cells.
- The grid is connected.

Together these give the main result, which is the contract of the
constructor `Start`:
- Every cell is visited exactly once.
- The open walls between cells form `width * depth - 1` distinct openings.
- Those openings connect every cell to the entrance and contain no cycle.
- Every wall looks the same from both sides.
- The only other open walls are the entrance's left wall and the exit's
  right wall. Both face outside the grid. On a 1x1 grid they are the two
  opposite walls of the same cell.

Modules:
- `Options`: `Option`, which stands for a cell reference that may be `null`.
- `Geometry`: coordinates, directions, adjacency, bounds, and grid size and
  connectivity.
- `Cells`: the cell value.
- `SpanningTree`: the traversal log and its tree properties.
- `MazeGen`: the `MazeGen2` class.

Two points about the order of events in the source:
- `Visit` and the wall opening happen at the start of the recursive call
  (source lines 43-47): `GenerateMaze(prev, cur)` first marks `cur` visited
  and then calls `ClearWalls(prev, cur)`. The model keeps this order; its
  method `VisitFrom` is that first step.
- The source orders the candidates by `Random.value` and takes the first
  (source line 66); the model picks any candidate.

## Model

| member | source | states |
|---|---|---|
| MazeGen.MazeGen2.Start | Assets/MazeGen2.cs:17-39 | Allocates a `width x depth` grid with entrance (0,0) and exit (width-1, depth-1), then carves it. Afterwards the log is a carving log from the entrance, and every visited cell lies in the grid. Every cell is visited exactly once, with `width*depth` visits and `width*depth-1` openings. Every opening joins neighbours and no wall is opened twice. Every cell is connected to the entrance through open walls, and no cycle exists. Walls are symmetric. The only open boundary walls are the entrance's left and the exit's right, and both face out of the grid. |
| MazeGen.MazeGen2.GenerateMaze | Assets/MazeGen2.cs:41-61 | Takes a `cur` that is not yet visited and first runs `VisitFrom`. It then recurses into unvisited neighbours until none remains, and terminates because the set of unvisited cells shrinks. It keeps the invariant: visited flags match the log, walls match the openings, and the log is a carving from the entrance. Afterwards the visit order carries on from the order before the call with `cur` next. The openings log carries on from the log before the call, every earlier opening still in place, with the opening from `prev` to `cur` next when there is a `prev`. `cur` and all its in-bounds neighbours are visited, and every visited cell outside the calls still running is finished. |
| MazeGen.MazeGen2.VisitFrom | Assets/MazeGen2.cs:43-47 | Marks `cur` visited and, when there is a `prev`, opens the wall between them. The visit is appended to the visiting log and the opening to the openings log, and the invariant is kept. |
| MazeGen.MazeGen2.NextCellMeaning | Assets/MazeGen2.cs:52-60 | A chosen next cell is an unvisited in-bounds neighbour of the current cell. No choice means every in-bounds neighbour is already visited, which ends the do-while loop. |
| MazeGen.MazeGen2.GetNextUnvisitedCell | Assets/MazeGen2.cs:63-67 | Returns `None` (the source's `null`) exactly when there are no unvisited candidates. Otherwise it returns one of the candidates. |
| MazeGen.MazeGen2.GetUnvisitedCells | Assets/MazeGen2.cs:69-85 | Built from one piece per `if`, in the order +X, -X, +Z, -Z. Every cell returned is in bounds, adjacent to `cur` and not visited. Every in-bounds unvisited neighbour is returned. There are at most four, with no duplicates. |
| MazeGen.MazeGen2.ClearWalls | Assets/MazeGen2.cs:87-109 | Clears `prev`'s wall facing `cur` and `cur`'s wall facing back, where the facing side comes from comparing x first, then z. Equal positions clear nothing. No other cell, wall or visited flag changes. For adjacent cells it keeps walls matching the openings after the new opening is logged. |
| MazeGen.MazeGen2.ClearEntranceAndExitWalls | Assets/MazeGen2.cs:111-118 | Clears exactly the entrance's left wall and the exit's right wall; nothing else changes. Applied to a grid whose walls match the openings, it yields the finished maze. |
| MazeGen.MazeGen2.CarvedSymmetric | Assets/MazeGen2.cs:87-118 | In the finished maze, each wall between two cells is open on one side exactly when it is open on the other. |
| Cells.Cell.Visit | Assets/MazeGen2.cs:43 | The cell becomes visited and its walls are unchanged. |
| Cells.Cell.ClearWall | Assets/MazeGen2.cs:91-107 | The named wall is down. The other three walls and the visited flag are unchanged. |
| Geometry.Step | Assets/MazeGen2.cs:74-84 | The neighbour across a wall differs by one on exactly one axis. |
| Geometry.StepOpposite | Assets/MazeGen2.cs:89-108 | Stepping across a wall and back across the opposite wall returns to the start. |
| Geometry.Facing | Assets/MazeGen2.cs:89-108 | The wall `ClearWalls` picks: it is absent exactly when the two positions are equal. |
| Geometry.FacingAdjacent | Assets/MazeGen2.cs:89-108 | For neighbours, the picked wall leads to the other cell, and the other cell picks the opposite wall. |
| Geometry.StepFacing | Assets/MazeGen2.cs:89-108 | The wall picked toward the neighbour across wall `d` is `d`. |
| Geometry.AdjacentIsStep | Assets/MazeGen2.cs:74-84 | Every adjacent cell is the neighbour across some wall. |
| Geometry.CornerWallsFaceOutside | Assets/MazeGen2.cs:31-32 | The entrance corner's left wall and the exit corner's right wall lead out of the grid. |
| Geometry.NeighbourListDistinct | Assets/MazeGen2.cs:74-84 | The four per-direction pieces concatenate to at most four distinct cells, holding exactly the pieces' members. |
| Geometry.FinishedGrow | Assets/MazeGen2.cs:52-60 | Cells that are finished stay finished as more cells are visited. |
| Geometry.FinishOne | Assets/MazeGen2.cs:60 | A cell whose neighbours are all visited can leave the set of running calls. |
| Geometry.RemainingShrinks | Assets/MazeGen2.cs:58 | Visiting a new in-bounds cell strictly shrinks the set of unvisited cells, which is the traversal's termination measure. |
| Geometry.InAllCells | Assets/MazeGen2.cs:22-28 | A coordinate is a grid cell exactly when it is in bounds. |
| Geometry.GridSize | Assets/MazeGen2.cs:19-28 | The grid has exactly `width * depth` cells. |
| Geometry.DistinctSize | Assets/MazeGen2.cs:19-28 | Proof helper: a list without duplicates has as many members as entries. |
| Geometry.CoveringSize | Assets/MazeGen2.cs:19-28 | A duplicate-free list of in-bounds cells that names every cell has `width * depth` entries. |
| Geometry.ClosedCoversGrid | Assets/MazeGen2.cs:52-60 | A set of cells that contains (0,0) and every in-bounds neighbour of each member contains the whole grid. |
| SpanningTree.TreeLogStart | Assets/MazeGen2.cs:35 | The log of a traversal that has visited only its start is a tree. |
| SpanningTree.TreeLogExtend | Assets/MazeGen2.cs:43-47 | Visiting a new cell from an already visited parent keeps the log a tree. |
| SpanningTree.CarvingLogStart | Assets/MazeGen2.cs:35 | The first visit, at the entrance, starts a well-formed carving log. |
| SpanningTree.CarvingLogExtend | Assets/MazeGen2.cs:43-47 | Visiting a new in-bounds neighbour of a visited cell extends the carving log. |
| SpanningTree.LogShapeExtend | Assets/MazeGen2.cs:43-47 | One carving step keeps every cell in the grid, every opening between neighbours and the log a tree. |
| SpanningTree.CarvingLogShape | Assets/MazeGen2.cs:41-61 | Every carving log keeps its cells in the grid and its openings between neighbours, starts at the entrance, and is a tree log. |
| SpanningTree.ContinuesIsPrefix | Assets/MazeGen2.cs:46 | Proof helper: carrying on from a log is the same as having it as a prefix. |
| SpanningTree.ContinuesKeeps | Assets/MazeGen2.cs:46 | Proof helper: a log carrying on from `a` followed by an opening `e` keeps `a` as a prefix and contains `e`. |
| SpanningTree.TreeLogConnected | Assets/MazeGen2.cs:41-61 | Every visited cell is connected to the first one through open walls. |
| SpanningTree.EdgesDistinct | Assets/MazeGen2.cs:46 | No wall is opened twice, in either direction. |
| SpanningTree.JoinedVisited | Assets/MazeGen2.cs:46 | Both sides of an opening are visited cells. |
| SpanningTree.ParentUnique | Assets/MazeGen2.cs:46 | Of two joined cells, the later-visited one was opened from the earlier one. |
| SpanningTree.MaxRank | Assets/MazeGen2.cs:43 | Proof helper: a non-empty list of visited cells has a member visited last. |
| SpanningTree.NoCycle | Assets/MazeGen2.cs:41-61 | The openings contain no cycle. |
| SpanningTree.SpanningTreeOfGrid | Assets/MazeGen2.cs:35-38 | A carving log from (0,0) in which every cell is finished covers the grid. It has `width*depth` visits and `width*depth-1` distinct openings, connects every cell to (0,0) and contains no cycle. |

## Left out

- Unity's `Instantiate` of the cell prefab, `Vector3` positions and
  `Quaternion` are left out. A cell's position is its grid coordinate, so the
  float `transform.position` and the `(int)` casts at source lines 71-72 and
  89-104 become integer comparisons. This is exact while width and depth are
  below 2^24, where every integer coordinate is exactly representable as a
  `float`.
- The coroutine machinery is left out: `IEnumerator`, `yield return` and
  `WaitForSeconds(0.05f)` at source line 49. They only pace the animation, so
  `Start` and `GenerateMaze` are plain calls.
- The ordering by `Random.value` is left out. It becomes an arbitrary choice
  among the candidates, so determinism under a fixed random seed is not
  stated.
- The prefab is assumed to start unvisited with all four walls standing
  (`Cells.Fresh`); `MazeCell` is not shown, and every result of `Start`
  rests on this starting state.
- `MazeCell` is the prefab's component and its code is not part of this
  model. Its `Visit`, `IsVisited` and `Clear*Wall` members are modelled as
  the value operations in `Cells`. Each grid slot holds its own cell and no
  slot is shared, so this loses no aliasing.
- The serialized fields `_mazeWidth` and `_mazeDepth` become the
  constructor's parameters.
- MazeGen.MazeGen2.Start: requires `width >= 1` and `depth >= 1`. With a
  zero or negative size the source fails: it indexes `[0, 0]` of an empty
  grid, or allocates a negative-size array. This error path is not modelled.
- The ghost fields `order` and `edges` are proof instrumentation. They do
  not exist in the source.
