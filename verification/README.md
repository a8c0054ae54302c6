# Dungeon generator core, modelled in Dafny

This project models the algorithmic layer of a Unity 2D dungeon generator.
The generator places non-touching rectangular rooms on a cell grid. It
joins the rooms with a minimum spanning tree plus a few random extra edges.
Then it digs a hallway for each chosen edge with a grid search whose step
cost prefers existing hallways.

The modules follow the C# classes:

- `Geometry`: `Vector2Int` and `RectInt`, including `RectInt.Contains` and the
  normalising `xMin`/`xMax`/`yMin`/`yMax` accessors.
- `Grid2D`: the offset-addressed 2D store over a flat array.
  - The indexer does no check of its own, so the model makes `InBounds` its precondition.
- `PriorityQueue`: the part of `SimplePriorityQueue<Node, float>` the search uses.
  - The queue is a sequence of entries, and the same item may be queued twice.
  - `Dequeue` takes any entry of least priority; the tie-break is left open.
  - `TryGetPriority` and `UpdatePriority` address the earliest entry holding the item.
- `Prim`: the undirected edge with value equality, and the O(V·E) variant of Prim's algorithm.
- `DungeonPathfinder2D`: the node grid, `ResetNodes`, `FindPath` and `ReconstructPath`.
  - The search state is a value: node grid, frontier and closed set.
  - The main loop is a method with a loop invariant strong enough to prove paths well formed.
  - Under the corrected frontier probe (see Findings), the invariant also gives completeness.
- `StaleProbe`: a concrete 3 × 2 room in which the frontier probe as written loses the target.
- `Generator2D`: the pure rules of the generator.
  - `Room.Intersect`, the acceptance test and Room stamping of `PlaceRooms`.
  - The edge selection of `CreateHallways`.
  - The cost lambda, the path commit and the whole loop of `PathfindHallways`.

Some inputs come from outside the core and are parameters:

- Random draws: `PlaceRooms` takes `draw: nat -> RectInt`, and `CreateHallways` takes `keep: nat -> real`.
- Distances: `Prim.NewEdge` takes `dist: (V, V) -> real`, and `StepCost` takes `dist: (Vec2, Vec2) -> real`.
- The Delaunay edge list: an arbitrary `seq<Prim.Edge<Room>>`.
- Hash codes: a function `V -> bv32`.

Floating-point costs are reals, and `float.PositiveInfinity` is the `Infinity` constructor of `Cost`.

## Model

| member | source | states |
|---|---|---|
| Grid2D.Create | Assets/Scripts/Scripts2D/Grid2D.cs:11-16 | a new grid keeps its size and offset, its array has `size.x * size.y` slots, and every in-bounds cell reads the default value |
| Grid2D.InBoundsIff | Assets/Scripts/Scripts2D/Grid2D.cs:22-24 | a position is in bounds exactly when, after the offset is added, it lies in the half-open rectangle `[0, Size.x) × [0, Size.y)` |
| Grid2D.IndexInRange | Assets/Scripts/Scripts2D/Grid2D.cs:15-19 | every in-bounds position, offset and flattened by `x + Size.x * y`, lands on a slot of the array |
| Grid2D.IndexInjective | Assets/Scripts/Scripts2D/Grid2D.cs:18-19 | distinct in-bounds positions land on distinct slots |
| Grid2D.IndexOnto | Assets/Scripts/Scripts2D/Grid2D.cs:15-19 | every slot of the array is the slot of some in-bounds position, so the flattening is a bijection |
| Grid2D.Grid.Set | Assets/Scripts/Scripts2D/Grid2D.cs:42-51 | after a write, the written position reads the new value and every other in-bounds position reads what it read before; size and offset do not change |
| Grid2D.Grid.SetXY | Assets/Scripts/Scripts2D/Grid2D.cs:30-37 | the `[x, y]` setter writes exactly the cell `(x, y)` and leaves every other in-bounds cell alone |
| PriorityQueue.FirstIndex | Assets/Scripts/Scripts2D/DungeonPathfinder2D.cs:109-110 | the entry found holds the item, and no earlier entry does |
| PriorityQueue.Enqueue | Assets/Scripts/Scripts2D/DungeonPathfinder2D.cs:72 | the queue grows by one entry at the back, holding the new item with the given priority; every earlier entry is unchanged, and every item already queued stays queued |
| PriorityQueue.EnqueueMultiset | Assets/Scripts/Scripts2D/DungeonPathfinder2D.cs:72 | the multiset of entries gains exactly the new entry |
| PriorityQueue.TryGetPriority | Assets/Scripts/Scripts2D/DungeonPathfinder2D.cs:109 | answers exactly when the item is queued, with the priority of an entry holding it |
| PriorityQueue.TryGetPriorityEarliest | Assets/Scripts/Scripts2D/DungeonPathfinder2D.cs:109 | the priority answered is that of the earliest entry holding the item |
| PriorityQueue.UpdatePriority | Assets/Scripts/Scripts2D/DungeonPathfinder2D.cs:110 | exactly one entry holding the item gets the new priority, and every other entry is unchanged; items and membership are kept |
| PriorityQueue.UpdatePriorityEarliest | Assets/Scripts/Scripts2D/DungeonPathfinder2D.cs:110 | the entry re-prioritised is the earliest entry holding the item |
| PriorityQueue.MinExists | Assets/Scripts/Scripts2D/DungeonPathfinder2D.cs:74-77 | a non-empty frontier has an entry of least priority to dequeue |
| PriorityQueue.RemoveAt | Assets/Scripts/Scripts2D/DungeonPathfinder2D.cs:77 | removing entry `i` shortens the queue by one; the entries before and after `i` keep their order; every other item keeps its membership, and nothing new appears |
| PriorityQueue.RemoveAtMultiset | Assets/Scripts/Scripts2D/DungeonPathfinder2D.cs:77 | the multiset of entries loses exactly the removed entry |
| Prim.NewEdge | Assets/Scripts/Prim.cs:10-12 | the edge joins the two given vertices, and its distance is the distance between them |
| Prim.EdgeSymmetric | Assets/Scripts/Prim.cs:10-37 | `Edge(u, v)` and `Edge(v, u)` are `==`, are not `!=`, and have the same hash code |
| Prim.EqualityIsEquivalence | Assets/Scripts/Prim.cs:14-33 | `==` is reflexive, symmetric and transitive, `!=` is its negation, both `Equals` agree with `==`, and `Equals` on null or a non-edge is false |
| Prim.HashRespectsEquality | Assets/Scripts/Prim.cs:14-17 | `==` edges have equal hash codes, so the edge is a sound hash-set element |
| Prim.CrossesIff | Assets/Scripts/Prim.cs:78-85 | the scan keeps an edge exactly when one endpoint is closed and the other is not, so a kept edge is never a self-loop |
| Prim.Lightest | Assets/Scripts/Prim.cs:72-93 | the scan picks a crossing edge; its distance is at most that of every crossing edge and strictly below every earlier crossing edge, so the first among equals wins; it picks none exactly when no edge crosses |
| Prim.MstChoices | Assets/Scripts/Prim.cs:40-107 | every tree edge is an input edge, and each is the first lightest crossing edge for the vertices closed before it |
| Prim.MstGrowsByOne | Assets/Scripts/Prim.cs:95-102 | each tree edge has exactly one endpoint among the vertices touched before it, so the tree is acyclic and touches one vertex more than it has edges |
| Prim.MstDistinct | Assets/Scripts/Prim.cs:95-102 | no two tree edges are `==`, because each one reaches a vertex that no earlier tree edge touched |
| Prim.MstStopsAtCut | Assets/Scripts/Prim.cs:71-103 | when the loop ends no input edge crosses from the touched vertices to the rest |
| Prim.MstIsolatedStart | Assets/Scripts/Prim.cs:65-97 | a start vertex that no edge touches gives an empty tree |
| Prim.MstSpans | Assets/Scripts/Prim.cs:57-103 | for a connected edge list that contains the start, the tree touches every vertex and has one edge fewer than there are vertices |
| Prim.TriangleExample | Assets/Scripts/Prim.cs:40-107 | on the triangle AB=3, AC=4, BC=5 started at A, the tree is exactly [AB, AC] |
| DungeonPathfinder2D.New | Assets/Scripts/Scripts2D/DungeonPathfinder2D.cs:35-47 | the cell `(x, y)` of the node grid holds the node for position `(x, y)`, with no predecessor and cost 0 |
| DungeonPathfinder2D.ResetNodes | Assets/Scripts/Scripts2D/DungeonPathfinder2D.cs:49-59 | every node keeps its position, loses its predecessor and gets cost infinity |
| DungeonPathfinder2D.Relax | Assets/Scripts/Scripts2D/DungeonPathfinder2D.cs:88-115 | one neighbour step. Only the neighbour can change, and only when it is open, in bounds, traversable and strictly improved through the current node; then it gets the current node as predecessor. The frontier grows by at most one. With the neighbour probed, an improved neighbour is always queued; as written, only when the current node is not queued |
| DungeonPathfinder2D.RelaxRequeued | Assets/Scripts/Scripts2D/DungeonPathfinder2D.cs:105-113 | when the step improves the neighbour, the frontier entry carries the neighbour's new cost. If the probed item is queued (the current node as written, the neighbour when corrected), its earliest entry is re-prioritised to that cost and the neighbour is not added. Otherwise the neighbour is appended with that cost |
| DungeonPathfinder2D.ExpandKeeps | Assets/Scripts/Scripts2D/DungeonPathfinder2D.cs:88-116 | expanding a closed node keeps the search invariant and leaves that node fully expanded; the invariant covers links, ranks and frontier contents |
| DungeonPathfinder2D.ExpandSettledNoop | Assets/Scripts/Scripts2D/DungeonPathfinder2D.cs:88-116 | expanding a node again after it was fully expanded changes nothing, so only a first expansion enqueues anything |
| DungeonPathfinder2D.ReconstructPath | Assets/Scripts/Scripts2D/DungeonPathfinder2D.cs:122-136 | the list runs from the start to the given node, every step is an in-bounds, traversable unit move, no cell repeats, and each cell is the predecessor of the next |
| DungeonPathfinder2D.PopAll | Assets/Scripts/Scripts2D/DungeonPathfinder2D.cs:130-133 | popping the stack into the list reverses the pushed positions |
| DungeonPathfinder2D.PathToSelf | Assets/Scripts/Scripts2D/DungeonPathfinder2D.cs:83-84 | the only path from a cell to itself is that cell alone |
| DungeonPathfinder2D.StartSearch | Assets/Scripts/Scripts2D/DungeonPathfinder2D.cs:62-72 | after the reset only the start is queued, at cost 0, nothing is closed, and every other node costs infinity |
| DungeonPathfinder2D.Round | Assets/Scripts/Scripts2D/DungeonPathfinder2D.cs:74-117 | one turn dequeues a cheapest entry. It returns a well-formed path when that entry is the end; otherwise it keeps the invariant and strictly shrinks the termination measure |
| DungeonPathfinder2D.ExhaustedUnreachable | Assets/Scripts/Scripts2D/DungeonPathfinder2D.cs:74-119 | with the neighbour probed, an empty frontier means the end cannot be reached from the start |
| DungeonPathfinder2D.FindPath | Assets/Scripts/Scripts2D/DungeonPathfinder2D.cs:61-120 | see the list below this table |
| StaleProbe.AsWrittenRuns | Assets/Scripts/Scripts2D/DungeonPathfinder2D.cs:104-114 | in the probe room, every run of the loop as written never has the end on the frontier, and it empties the frontier after exactly five turns |
| StaleProbe.AsWrittenMissesEnd | Assets/Scripts/Scripts2D/DungeonPathfinder2D.cs:109-114 | with line 109 as written, `FindPath` returns null in the probe room although the end is reachable |
| StaleProbe.CorrectedFindsEnd | Assets/Scripts/Scripts2D/DungeonPathfinder2D.cs:109-114 | with the neighbour probed instead, `FindPath` returns a path from start to end in the same room |
| Generator2D.NewRoom | Assets/Scripts/Scripts2D/Generator2D.cs:18-20 | the room's bounds have the given corner and size |
| Generator2D.IntersectIff | Assets/Scripts/Scripts2D/Generator2D.cs:26-28 | for rooms at least one cell wide and tall, `Intersect` is symmetric and holds exactly when some cell lies in both rooms |
| Generator2D.Buffer | Assets/Scripts/Scripts2D/Generator2D.cs:104 | the buffer's corner is one cell up and left of the room's, and it is two cells wider and taller |
| Generator2D.InsideGridIff | Assets/Scripts/Scripts2D/Generator2D.cs:119-122 | a room passes the bounds test exactly when it starts at a non-negative corner and ends strictly before the last row and column |
| Generator2D.Separated | Assets/Scripts/Scripts2D/Generator2D.cs:104-113 | if a room misses another room's buffer, any cell of one is at least two cells from any cell of the other along some axis: they neither overlap nor touch |
| Generator2D.Stamp | Assets/Scripts/Scripts2D/Generator2D.cs:148-151 | after stamping, every cell of the room reads `Room` and every other cell keeps its old value |
| Generator2D.Attempt | Assets/Scripts/Scripts2D/Generator2D.cs:85-173 | one iteration appends the drawn candidate exactly when the acceptance test passes, and otherwise keeps the room list. The placement invariant holds afterwards: rooms inside the grid, rooms apart, rooms drawn, and exactly the room cells stamped |
| Generator2D.PlaceFrom | Assets/Scripts/Scripts2D/Generator2D.cs:84-174 | the loop keeps the placement invariant, never passes 50000 iterations or the requested room count, and stops only at one of those bounds |
| Generator2D.PlaceFromGreedy | Assets/Scripts/Scripts2D/Generator2D.cs:84-174 | from a state the greedy reference describes, the loop ends with exactly the rooms the reference keeps from the candidates drawn, and it ran only while fewer than `roomCount` rooms were kept |
| Generator2D.GreedyPrefix | Assets/Scripts/Scripts2D/Generator2D.cs:142-145 | rooms are only ever appended: the rooms kept after fewer iterations are a prefix of those kept after more |
| Generator2D.AcceptedKept | Assets/Scripts/Scripts2D/Generator2D.cs:98-145 | a candidate that passes the buffer and bounds tests against the rooms kept before it is among the rooms kept at any later point |
| Generator2D.PlaceRooms | Assets/Scripts/Scripts2D/Generator2D.cs:83-175 | see the list below this table |
| Generator2D.PlacedRoomsApart | Assets/Scripts/Scripts2D/Generator2D.cs:99-145 | any two distinct placed rooms, in either order, keep at least one free cell between them |
| Generator2D.Leftover | Assets/Scripts/Scripts2D/Generator2D.cs:217-218 | the leftover edges are input edges outside the tree, no two are `==`, and every input edge outside the tree is `==` to one of them |
| Generator2D.Keep | Assets/Scripts/Scripts2D/Generator2D.cs:221-225 | a leftover edge is kept exactly when its draw falls below the threshold |
| Generator2D.KeepDistinct | Assets/Scripts/Scripts2D/Generator2D.cs:221-225 | keeping some of a list of pairwise different edges leaves edges that are still pairwise different |
| Generator2D.SelectionDistinct | Assets/Scripts/Scripts2D/Generator2D.cs:214-225 | the tree followed by kept leftover edges holds no two `==` edges, as a `HashSet<Prim.Edge>` cannot |
| Generator2D.CreateHallways | Assets/Scripts/Scripts2D/Generator2D.cs:198-226 | the selection starts with the whole spanning tree from the first edge's `U` and holds only input edges. Every input edge is in the tree or among the leftovers. Every edge after the tree is a leftover edge whose draw is below 0.125, and every leftover edge whose draw is below 0.125 is selected. No two selected edges are `==`, just as in the C# `HashSet` |
| Generator2D.StepCost | Assets/Scripts/Scripts2D/Generator2D.cs:251-273 | every step is traversable, and the cost ignores the source node. Stepping onto an in-bounds cell costs its distance to the end plus the cell's surcharge: 10 for Room, 5 for None, 1 for Hallway |
| Generator2D.StepCostPrefersHallways | Assets/Scripts/Scripts2D/Generator2D.cs:260-265 | of two cells equally far from the end, a hallway is cheaper than anything else, and open ground is cheaper than a room |
| Generator2D.CommitPath | Assets/Scripts/Scripts2D/Generator2D.cs:278-285 | committing a path turns exactly the `None` cells on it into `Hallway`; room cells, hallway cells and every cell off the path keep their value |
| Generator2D.CommitIdempotent | Assets/Scripts/Scripts2D/Generator2D.cs:278-285 | committing the same path a second time changes nothing |
| Generator2D.TruncHalf | Assets/Scripts/Scripts2D/Generator2D.cs:243-244 | the cast of a half-integer to `int` truncates toward zero, on either side of zero |
| Generator2D.Center | Assets/Scripts/Scripts2D/Generator2D.cs:239-244 | the truncated centre of a room with a non-negative corner and a positive size is a cell of that room |
| Generator2D.CenterInGrid | Assets/Scripts/Scripts2D/Generator2D.cs:239-244 | the centre of a placed room is a cell of the grid, so the search may start there |
| Generator2D.OpenGridReachable | Assets/Scripts/Scripts2D/Generator2D.cs:268-270 | when every step is traversable, any two cells of the grid reach each other |
| Generator2D.SearchCorridor | Assets/Scripts/Scripts2D/Generator2D.cs:251-273 | a path found is a chain of neighbouring grid cells from one centre to the other; with the neighbour probed, a path is always found |
| Generator2D.CommitJoins | Assets/Scripts/Scripts2D/Generator2D.cs:278-285 | after a corridor is committed, every cell of it is a room or hallway cell, its two ends are joined, and only cells of the corridor changed |
| Generator2D.CommitPaved | Assets/Scripts/Scripts2D/Generator2D.cs:278-285 | committing the next corridor leaves it and every corridor committed before it made of room and hallway cells |
| Generator2D.CommitDugAlong | Assets/Scripts/Scripts2D/Generator2D.cs:278-285 | after committing the next corridor, every cell changed since the start lies on a corridor the searches returned |
| Generator2D.HallwaysExactly | Assets/Scripts/Scripts2D/Generator2D.cs:278-285 | a grid that only grew, is paved along the found corridors and changed only on them, is the original grid with exactly the open cells of those corridors turned into hallway |
| Generator2D.PavedJoins | Assets/Scripts/Scripts2D/Generator2D.cs:250-285 | a found corridor whose cells are all room or hallway joins the centres of its edge |
| Generator2D.HallwayFor | Assets/Scripts/Scripts2D/Generator2D.cs:233-299 | one pass over edge `k` records the path the search returned, or none, and keeps the hallway invariant: the grid only grew, every found corridor runs between its edge's centres and is paved, every change lies on a found corridor, and with the neighbour probed every search so far found a path |
| Generator2D.PathfindHallways | Assets/Scripts/Scripts2D/Generator2D.cs:228-300 | see the list below this table |

`DungeonPathfinder2D.FindPath` states the following:

- A returned path runs from `start` to `end` and consists of in-bounds cells.
- Consecutive cells of the path differ by one of the four unit offsets, and each such step was reported traversable.
- No cell repeats, and the path follows the predecessor links left in the node grid.
- When `start == end` the result is `[start]`.
- Null comes back only after the frontier is exhausted. A path comes back only when `end` was a cheapest entry.
- With the neighbour probed, null comes back exactly when `end` cannot be reached.

`Generator2D.PlaceRooms` states the following:

- It runs at most 50000 iterations and accepts at most `roomCount` rooms. It stops early only once `roomCount` rooms are placed.
- The rooms are exactly those the greedy reference `Greedy` keeps from the candidates drawn: each candidate in turn is kept when it passes the buffer and bounds tests against the rooms kept before it.
- Every iteration ran while fewer than `roomCount` rooms were kept.
- Every candidate that passed the test against the rooms kept before it is among the placed rooms.
- Every placed room is one of the drawn candidates, lies strictly inside the grid and is at least 1 × 1.
- No room meets the buffer of a later room.
- The grid reads `Room` exactly on the rooms' cells and `None` everywhere else.

`Generator2D.PathfindHallways` returns, next to the grid, a ghost record `ws` of the path each search returned (empty where it returned null). It states the following:

- There is one record per selected edge. Each non-empty record is a chain of neighbouring grid cells from the centre of the edge's first room to the centre of its second.
- The final grid is the original grid with exactly the `None` cells that lie on a recorded path turned into `Hallway`. Every other cell keeps its value.
- The centres of every edge whose search found a path end up joined by room and hallway cells.
- With the neighbour probed, every search finds a path, so every selected edge is joined.

## Left out

- Unity rendering and lifecycle are left out: `Start`, `PlaceRoom`, `PlaceHallway`, `PlaceCube`, `Instantiate` and the materials. They are engine side effects.
- `System.Random` becomes the `draw` and `keep` parameters. The .NET sequence is not reproducible, so the model holds for every draw sequence.
- A drawn candidate is assumed to be at least 1 × 1, since `Random.Next(1, max + 1)` guarantees that. The corner's range from `Random.Next(0, size - roomMaxSize)` is not constrained: the bounds test alone is relied on.
- `Generator2D.PlaceRooms`: `Random.Next(0, size.x - roomMaxSize.x)` at lines 85-87 of `Generator2D.cs` throws `ArgumentOutOfRangeException` when `roomMaxSize` exceeds `size` on an axis, and `Random.Next(1, roomMaxSize + 1)` throws for a negative `roomMaxSize`. The `draw` parameter is unconstrained, so these exception paths are not modelled.
- `Delaunay2D.Triangulate` is not part of this model. Its output is an arbitrary edge list.
- `Vector3.Distance` and `Vector2Int.Distance` are parameters.
- Float rounding, NaN and overflow to infinity are not modelled: costs and distances are exact reals.
- `Prim.Lightest`: `minWeight` starts at `float.PositiveInfinity` in the C# code, so an edge of infinite or NaN weight would never be picked. With real weights every crossing edge is a candidate.
- The `HashSet` iteration order of `CreateHallways` is modelled as first-occurrence order of the edge list. `.NET` gives no order guarantee; the model fixes one, and the draws are matched to edges in that order.
- 32-bit `int` overflow in `GetIndex`, in `x + Size.x * y` and in room coordinates is not modelled: integers are unbounded.
- The hash combiner is XOR on `bv32` over abstract vertex hash codes. The vertex hash codes themselves are parameters.
- BlueRaja's tie-break among entries of equal priority is left open: `Dequeue` may take any cheapest entry. Every property holds for every such choice.
- `DungeonPathfinder2D.FindPath` requires `start` to be in bounds. The C# indexer does no bounds check: an out-of-bounds start either lands outside the array, which throws, or aliases another node. For example, `start = (size.x, 0)` flattens to the slot of `(0, 1)`, and the search runs from there. Neither behaviour is modelled.
- `Grid2D.Create` and `DungeonPathfinder2D.New` require a size with no negative component. The C# constructor also accepts a negative size whose product is non-negative: `(-2, -3)` gives a 6-slot array. Such grids are not modelled.
- `FindPath` takes a `Func<Node, Node, PathCost>` that could read a node's `Cost` or `Previous`. The model's cost function sees only the two positions. The generator's lambda at lines 251-273 of `Generator2D.cs` reads only `b.Position`, `endPos` and `grid`, so the generator loses nothing by this.
- `StepCost` charges only the distance for a cell outside the grid. The search never asks about such a cell.
- The `delta` computed at lines 286-290 of `Generator2D.cs` is dead code and is left out.
- `Generate` only calls the four steps in order; its `Triangulate` step is not part of this model.
- The wall/door/pillar tile classification is not part of this model.
- `Prim.MstSpans`: it states that the tree spans the vertices. It does not state that the tree has least total weight; that optimality is not proved.
- `DungeonPathfinder2D.FindPath`: it does not state that a returned path has least total cost. Only well-formedness, and completeness with the neighbour probed, are proved.
- `Generator2D.PathfindHallways`: with line 109 as written, it does not promise that every search finds a path, so an edge may stay unjoined. The probe-room example shows that a search can miss a reachable end. Under the generator's own costs such a miss is not ruled out either. Nor does it say which path a search returns beyond its being a corridor between the centres.

## Findings

| source | as written | input that shows it | evidently intended | confidence | as-written member | corrected member |
|---|---|---|---|---|---|---|
| Assets/Scripts/Scripts2D/DungeonPathfinder2D.cs:109 | after improving `neighbor`, the frontier is probed with `TryGetPriority(node, …)`. While the expanded node still has a stale entry on the frontier, the improved neighbour is never enqueued; the stale entry is re-prioritised instead | a 3 × 2 room `B C # / S X E` with `#` a wall, and every step costing 1 except S→X costing 10. X is queued twice (cost 10 from S, cost 3 from C). Expanding X at cost 3 improves E, but the probe hits X's stale entry, so E is never queued. The frontier runs dry and `FindPath(S, E)` returns null although S, X, E is a walk | probe and enqueue the `neighbor` (`TryGetPriority(neighbor, …)` / `UpdatePriority(neighbor, newCost)`) | not executed | StaleProbe.AsWrittenMissesEnd | StaleProbe.CorrectedFindsEnd |

`FindPath` and `PathfindHallways` take the probe as a parameter, `Lookup`.
`AsWritten` is line 109 as written, and `Corrected` probes the neighbour.
With `Corrected`, `FindPath` is complete: it returns null exactly when `end` is unreachable. This is what lets `PathfindHallways` promise that every selected edge is joined.
