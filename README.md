# GamefiedAStar pathfinding core, modelled in Dafny

This project models the grid pathfinding of GamefiedAStar, a Unity game.
The world is cut into a rectangle of `GridNode`s. Each node is walkable or
blocked and carries a movement penalty: the terrain penalty under it, plus an
obstacle penalty when it is blocked, then smoothed by a 7 x 7 box blur.
`AStar.FindPath` looks up the nodes under two world positions. It runs A*
over the 8-neighbourhood, with octile distances (10 per straight step, 14 per
diagonal) and the penalties. It keeps its open set in an indexed binary `Heap`
and its closed nodes in a set. It then walks the parent links back from the
target and cuts the route down to the cells where it turns. A
`PathRequestManager` queues requests and runs one search at a time. It hands
each result to the requester's callback.

Modules, one per source file, plus `Numerics` for the integer arithmetic they share:

- `Numerics` (`numerics.dfy`): the C# integer helpers the core relies on.
  These are truncating division, `int.CompareTo`, `Mathf.Clamp`,
  `Mathf.Min`/`Max`, and the round-half-to-even of `Mathf.RoundToInt` applied
  to an exact quotient.
- `GridNodes` (`grid_node.dfy`): `GridNode` as a class. Its walkability and
  coordinates are constants; its penalty, costs, parent and heap index are
  fields. `Priority` and `Compare` give the `CompareTo` order on (F cost,
  H cost) as values.
- `Heaps` (`heap.dfy`): the `Heap` class over an `array<GridNode?>`. It has
  `count` (the source's `Count`) and the operations `Add`, `RemoveFirst`,
  `UpdateItem`, `Contains`, `SortUp`, `SortDown` and `Swap`. These are proved
  against a heap order on a ghost sequence of priorities, with lemmas about
  that order.
- `Grids` (`grid.dfy`): the `Grid` class over an `array2<GridNode?>`. It has
  `CreateGrid`, `BlurPenaltyMap` (both passes and the penalty bounds),
  `GetNeighbours`, `NodeFromWorldPoint` and `MaxSize`.
- `Waypoints` (`waypoints.dfy`): `SimplifyPath` on grid cells. It is proved
  against `Turns`, a recursive definition of the turning cells. Straight
  walks through the waypoints give back the route.
- `AStarSearch` (`astar.dfy`): `GetDistance`, `FindPath` as one synchronous
  call, and `RetracePath`, each as written and corrected. The search loop is proved to keep these invariants:
  - the heap mirrors the open set;
  - every closed node hangs below an earlier closed 8-neighbour;
  - the frontier property.
  On success the parent links give a route of walkable neighbours from start
  to target. On failure no such route exists.
- `PathRequests` (`path_requests.dfy`): `PathRequestManager`. The search it
  starts and the callbacks it calls are recorded in a ghost log of events.
  The log is proved to answer every request once, in order, with at most one
  search running.

Points where the code's behaviour is easy to misread:

- `Heap.Contains` is a positional test: it checks whether the slot named by
  the item's `heapIndex` holds the item. `Heaps.PoppedSoleItemStillContained`
  shows that a popped item can still test as contained.
  `AStarSearch.ContainsIsOpen` shows that the search never asks about such an
  item: it asks only about nodes that are not closed, and for those the
  positional test is exact.
- Both blur passes sum exactly the clamped window when the grid is wider and
  taller than the blur radius: cells beyond the border repeat the edge cell.
  `Grids.Grid.BlurPenaltyMap` states the result as a (2k + 1) x (2k + 1)
  clamped box sum, divided and rounded.
- The penalty bounds `penaltyMin`/`penaltyMax` are updated for rows 1 and up
  only. Row 0 is never compared, as in the code. They are never reset, so a
  rebuilt grid keeps the extremes of earlier builds.
- `AStar.RetracePath` leaves the start out of its trail and `SimplifyPath`
  keeps the cell after each turn, so the target is never a waypoint (see
  "## Findings"). `AStarSearch.RetracePath` and `AStarSearch.FindPath` model
  this as written; `AStarSearch.RetracePathCorrected` and
  `AStarSearch.FindPathCorrected` model the evident intent.

## Model

| member | source | states |
|---|---|---|
| Numerics.Abs | Assets/Scripts/AStar.cs:149-150 | the result is the argument or its negation, and never negative |
| Numerics.Min | Assets/Scripts/Grid.cs:124 | the result is one of the two arguments and no larger than either |
| Numerics.Max | Assets/Scripts/Grid.cs:123 | the result is one of the two arguments and no smaller than either |
| Numerics.TruncDiv | Assets/Scripts/Heap.cs:91 | C# division rounds toward zero: the remainder takes the sign of the dividend and is smaller than the divisor |
| Numerics.CompareInt | Assets/Scripts/GridNode.cs:48-50 | `int.CompareTo`: negative, zero or positive exactly when the first is smaller, equal or larger |
| Numerics.Clamp | Assets/Scripts/Grid.cs:116 | `Mathf.Clamp`: a value inside the range is kept, one below becomes the minimum, one above becomes the maximum |
| Numerics.RoundHalfEven | Assets/Scripts/Grid.cs:141 | `Mathf.RoundToInt` of n/d: within half a unit of the quotient, and even on a tie |
| GridNodes.Compare | Assets/Scripts/GridNode.cs:47-53 | positive exactly when the first node has the smaller F cost, or the same F cost and the smaller H cost; zero exactly on equal keys |
| GridNodes.CompareReflexive | Assets/Scripts/GridNode.cs:47-53 | a key compares equal to itself |
| GridNodes.CompareAntisymmetric | Assets/Scripts/GridNode.cs:47-53 | swapping the arguments negates the comparison |
| GridNodes.CompareTransitive | Assets/Scripts/GridNode.cs:47-53 | the order is transitive (strictly when one step is strict) and total |
| GridNodes.GridNode.constructor | Assets/Scripts/GridNode.cs:34-40 | a new node has the given walkability, coordinates and penalty, zero costs, no parent and heap index 0 |
| GridNodes.GridNode.FCost | Assets/Scripts/GridNode.cs:43 | the F cost exceeds the G cost (cost so far) by exactly the H cost (estimate to the target) |
| GridNodes.GridNode.CompareTo | Assets/Scripts/GridNode.cs:47-53 | the node-level order agrees with `Compare` on (F cost, H cost) |
| Heaps.Parent | Assets/Scripts/Heap.cs:91 | `(index - 1) / 2` under C# truncation: for a slot i > 0 an earlier slot whose left or right child i is, and 0 for the root |
| Heaps.ParentOfSlot | Assets/Scripts/Heap.cs:91 | `(i - 1) / 2` of a slot i > 0 is an earlier slot whose child i is; slot 0 is its own parent |
| Heaps.Swapped | Assets/Scripts/Heap.cs:109-113 | exchanging two slots swaps their contents, keeps all others and keeps the multiset |
| Heaps.RootIsBest | Assets/Scripts/Heap.cs:25-33 | in heap order the root's key is at least as good as the key in any slot |
| Heaps.RootIsBestOfAll | Assets/Scripts/Heap.cs:25-33 | the root is at least as good as every item |
| Heaps.AppendedLeaf | Assets/Scripts/Heap.cs:16-22 | an item placed in the next free slot breaks heap order at most between it and its ancestors |
| Heaps.LastToRoot | Assets/Scripts/Heap.cs:28-30 | moving the last item into the root drops one slot and keeps every slot but the root |
| Heaps.LastToRootDropsRoot | Assets/Scripts/Heap.cs:27-32 | moving the last item to the root removes exactly the old root from the multiset |
| Heaps.LastMovedToRoot | Assets/Scripts/Heap.cs:28-31 | after the move, heap order can fail only below the root |
| Heaps.ImprovedKey | Assets/Scripts/Heap.cs:36-39 | improving one key breaks heap order only between it and its ancestors |
| Heaps.SiftUpStep | Assets/Scripts/Heap.cs:96-99 | swapping an item that beats its parent moves the only possible violation up one level |
| Heaps.SiftUpDone | Assets/Scripts/Heap.cs:100-103 | when the item no longer beats its parent, or is the root, the heap is ordered |
| Heaps.BetterChild | Assets/Scripts/Heap.cs:55-69 | the chosen child is a child of the slot, and no other child of that slot is better |
| Heaps.SiftDownStep | Assets/Scripts/Heap.cs:72-75 | swapping with the better child when it beats the item moves the only possible violation down one level |
| Heaps.SiftDownDone | Assets/Scripts/Heap.cs:76-79 | when the better child does not beat the item, the heap is ordered |
| Heaps.SiftDownAtLeaf | Assets/Scripts/Heap.cs:81-84 | an item with no children leaves the heap ordered |
| Heaps.SlotsOrderedKeys | Assets/Scripts/Heap.cs:51-106 | heap order on the nodes in the slots is heap order on their keys |
| Heaps.OrderedRootIsBest | Assets/Scripts/Heap.cs:25-33 | the node in slot 0 compares at least as good as every live node |
| Heaps.Heap.constructor | Assets/Scripts/Heap.cs:10-13 | a new heap has `maxHeapSize` empty slots and count 0 |
| Heaps.Heap.Add | Assets/Scripts/Heap.cs:16-22 | the item joins the live items, count grows by one, heap order and slot indices are kept, free slots are untouched |
| Heaps.Heap.PlaceLast | Assets/Scripts/Heap.cs:18-19 | the item goes into slot `count` with that index; the other slots are unchanged |
| Heaps.Heap.Grow | Assets/Scripts/Heap.cs:21 | counting the placed slot in leaves a valid, ordered heap |
| Heaps.Heap.RemoveFirst | Assets/Scripts/Heap.cs:25-33 | returns the old root, removes exactly it from the live items, keeps heap order, and the returned item's index is 0 |
| Heaps.Heap.MoveLastToRoot | Assets/Scripts/Heap.cs:27-30 | the last live item moves to slot 0 with index 0, and count falls by one |
| Heaps.RootLeaves | Assets/Scripts/Heap.cs:27-30 | with every item at the slot its index names, the removed root is not among the items left |
| Heaps.Heap.UpdateItem | Assets/Scripts/Heap.cs:36-39 | after an item's key improved, heap order is restored with the same live items |
| Heaps.Heap.Contains | Assets/Scripts/Heap.cs:45-48 | a live item always tests true, and a true answer means the item occupies some slot |
| Heaps.Heap.SortDown | Assets/Scripts/Heap.cs:51-86 | from heap order broken only below the item, restores heap order with the same live items |
| Heaps.Heap.SinkStep | Assets/Scripts/Heap.cs:55-84 | one round of the loop: swaps with the better child when that child is better, moving the only possible order violation down, or ends with the heap ordered |
| Heaps.Heap.SortUp | Assets/Scripts/Heap.cs:89-106 | from heap order broken only above the item, restores heap order with the same items |
| Heaps.Heap.Swap | Assets/Scripts/Heap.cs:109-113 | exchanges the two items' slots and indices; the slot sequence is `Swapped` and the multiset is kept |
| Heaps.PoppedSoleItemStillContained | Assets/Scripts/Heap.cs:25-48 | after the only item is removed, `Contains` still reports it though no item is live |
| Grids.Row | Assets/Scripts/Grid.cs:117 | row y of a table holds the cell (x, y) at position x |
| Grids.WindowDropFirst | Assets/Scripts/Grid.cs:113-118 | a clamped window sum is its first clamped sample plus the rest |
| Grids.WindowSlide | Assets/Scripts/Grid.cs:123-127 | sliding the window by one subtracts the clamped sample that leaves and adds the one that enters |
| Grids.HorizontalColumn | Assets/Scripts/Grid.cs:111-129 | the column of horizontal window sums at x has one sum per row |
| Grids.RawPenalties | Assets/Scripts/Grid.cs:72-84 | each cell's raw penalty is its terrain penalty, plus the obstacle penalty when it is blocked |
| Grids.WorldToIndex | Assets/Scripts/Grid.cs:203-212 | any world coordinate, inside or outside the grid, gives an index inside the grid |
| Grids.RoundedInRange | Assets/Scripts/Grid.cs:211-212 | rounding a fraction between 0 and 1 of m gives an index between 0 and m |
| Grids.RoundExact | Assets/Scripts/Grid.cs:211-212 | rounding an exact multiple gives the multiplier |
| Grids.RoundMonotone | Assets/Scripts/Grid.cs:211-212 | rounding preserves order |
| Grids.WorldToIndexMonotone | Assets/Scripts/Grid.cs:203-212 | a larger world coordinate never maps to a smaller index |
| Grids.WorldToIndexAtEdges | Assets/Scripts/Grid.cs:206-212 | positions at or beyond the left edge snap to index 0, and at or beyond the right edge to the last index |
| Grids.Grid.constructor | Assets/Scripts/Grid.cs:32-33 | the sizes and the terrain table are set, there are no nodes yet, and the penalty bounds start at `int.MaxValue`/`int.MinValue` |
| Grids.Grid.MaxSize | Assets/Scripts/Grid.cs:51 | on a built grid, the number of nodes |
| Grids.Grid.CreateGrid | Assets/Scripts/Grid.cs:54-91 | every cell gets a fresh node of its own, with the probed walkability, the blurred raw penalty, and search fields cleared; the penalty bounds only widen, to take in every blurred raw penalty of rows 1 and up, and each either keeps its old value or is one of those penalties |
| Grids.Grid.PlaceNodes | Assets/Scripts/Grid.cs:57-88 | fills every cell with a fresh node made from that cell's probe results |
| Grids.Grid.CreateColumn | Assets/Scripts/Grid.cs:64-87 | fills column x with fresh nodes made from the probe results |
| Grids.Grid.NewNode | Assets/Scripts/Grid.cs:72-86 | a fresh node at (x, y) with its walkability and raw penalty |
| Grids.Grid.Place | Assets/Scripts/Grid.cs:86 | the node fills cell (x, y) and joins the grid's nodes |
| Grids.Grid.BlurPenaltyMap | Assets/Scripts/Grid.cs:94-165 | every node's penalty becomes its clamped box-blurred raw penalty; the bounds are the extremes of rows 1 and up, or their old values |
| Grids.Grid.HorizontalPass | Assets/Scripts/Grid.cs:111-129 | each horizontal sum is the clamped window of width 2k + 1 along its row |
| Grids.Grid.HorizontalRow | Assets/Scripts/Grid.cs:113-128 | the running sums of one row are its clamped windows; other rows are untouched |
| Grids.Grid.VerticalPass | Assets/Scripts/Grid.cs:132-164 | each node's penalty becomes the clamped vertical window over the horizontal sums, divided by the box area and rounded |
| Grids.Grid.VerticalColumn | Assets/Scripts/Grid.cs:134-163 | one column's penalties become its smoothed window sums, and the bounds take in rows 1 and up |
| Grids.Grid.SeedColumn | Assets/Scripts/Grid.cs:134-139 | the first vertical sum of a column is its clamped window around row 0 |
| Grids.Grid.BlurCell | Assets/Scripts/Grid.cs:145-162 | one slide of the vertical window: the new sum, the node's penalty and the min/max update |
| Grids.Grid.NodeFromWorldPoint | Assets/Scripts/Grid.cs:200-216 | returns the grid's node whose coordinates are the clamped, rounded fractions of the world position |
| Grids.Grid.GetNeighbours | Assets/Scripts/Grid.cs:168-196 | exactly the grid's 8-neighbours of the node, each once, at most 8, in the code's order |
| Grids.Grid.NeighbourAt | Assets/Scripts/Grid.cs:183-191 | at most one node per offset |
| Grids.Grid.NeighboursGathered | Assets/Scripts/Grid.cs:174-193 | the offsets visited so far contribute exactly the in-grid neighbours at those offsets |
| Grids.Grid.NeighboursCounted | Assets/Scripts/Grid.cs:174-193 | no more neighbours than offsets visited, the centre excluded |
| Grids.Grid.GatheredSkip | Assets/Scripts/Grid.cs:179-187 | skipping the centre or an out-of-grid offset keeps the gathered neighbours |
| Grids.Grid.GatheredAdd | Assets/Scripts/Grid.cs:187-191 | adding the node at an in-grid offset keeps the gathered neighbours exact |
| Grids.Grid.GatheredAll | Assets/Scripts/Grid.cs:168-196 | after all offsets, the list holds exactly the adjacent nodes of the grid, without repeats |
| Waypoints.Sign | Assets/Scripts/AStar.cs:128-144 | the unit step helper of `Walk`, the straight walk used to re-walk waypoints: 1, -1 or 0 exactly for positive, negative or zero |
| Waypoints.Walk | Assets/Scripts/AStar.cs:128-144 | the straight king's walk between two cells is empty exactly when they coincide, and otherwise ends at the second |
| Waypoints.RewalkEnds | Assets/Scripts/AStar.cs:128-144 | walking through waypoints that enters any cell ends at the last waypoint |
| Waypoints.RewalkEmpty | Assets/Scripts/AStar.cs:128-144 | a walk through waypoints that enters nothing had only the start cell as waypoints |
| Waypoints.Reverse | Assets/Scripts/AStar.cs:122 | `Array.Reverse` keeps the length |
| Waypoints.ReverseIndex | Assets/Scripts/AStar.cs:122 | `Array.Reverse`: position i of the result holds the element i places from the end |
| Waypoints.Turns | Assets/Scripts/AStar.cs:133-142 | a route has fewer waypoints than cells |
| Waypoints.EarlyTurns | Assets/Scripts/AStar.cs:133-142 | the as-written waypoints are fewer than the cells |
| Waypoints.SimplifyPath | Assets/Scripts/AStar.cs:128-144 | on a target-first trail, the kept cells reversed are the turning cells and the end of the start-first route |
| Waypoints.TurnsStep | Assets/Scripts/AStar.cs:133-142 | one loop step keeps the waypoints so far equal to the turns of the trail read so far |
| Waypoints.EarlyTurnsStep | Assets/Scripts/AStar.cs:133-142 | the same step invariant for the loop as written |
| Waypoints.SimplifyPathAsWritten | Assets/Scripts/AStar.cs:128-144 | the loop as written keeps the cell before each turn, which is `EarlyTurns` of the route |
| Waypoints.RewalkTurns | Assets/Scripts/AStar.cs:128-144 | walking straight from a route's start through its waypoints gives back every cell of the route after the start |
| Waypoints.TurnsEndAtTarget | Assets/Scripts/AStar.cs:137-140 | a route of two or more cells has waypoints, and the last one is the target |
| Waypoints.EarlyTurnsBeforeTarget | Assets/Scripts/AStar.cs:139 | every as-written waypoint is a cell before the last one |
| Waypoints.AsWrittenStopsShort | Assets/Scripts/AStar.cs:109-144 | on a route whose target is visited once, the as-written waypoints walked from the start never give back the route |
| AStarSearch.GetDistance | Assets/Scripts/AStar.cs:147-156 | the distance is 10 per step along the longer axis plus 4 per step along the shorter one: 10 per king move plus 4 extra per diagonal move |
| AStarSearch.GetDistanceIsOctile | Assets/Scripts/AStar.cs:147-156 | the distance is 10 per step of the longer axis plus 4 per step of the shorter one: the octile distance |
| AStarSearch.GetDistanceMetric | Assets/Scripts/AStar.cs:147-156 | never negative, zero exactly for the same cell, and symmetric |
| AStarSearch.GetDistanceOfStep | Assets/Scripts/AStar.cs:147-156 | one step to an 8-neighbour costs 14 diagonally and 10 straight |
| AStarSearch.OctileTriangle | Assets/Scripts/AStar.cs:147-156 | the octile distance satisfies the triangle inequality |
| AStarSearch.GetDistanceTriangle | Assets/Scripts/AStar.cs:147-156 | going through a third node is never shorter, so the heuristic is consistent with the step costs |
| AStarSearch.CellsOf | Assets/Scripts/AStar.cs:135 | the cells of the nodes, position by position |
| AStarSearch.ConnectsIsWalk | Assets/Scripts/AStar.cs:73-96 | a route of 8-neighbouring nodes is a king's walk between their cells |
| AStarSearch.CellsOfReverse | Assets/Scripts/AStar.cs:122 | reversing nodes reverses their cells |
| AStarSearch.RetraceStep | Assets/Scripts/AStar.cs:114-118 | one step back along a parent link reaches a node closed earlier, and the route still connects and follows the links |
| AStarSearch.RetracePath | Assets/Scripts/AStar.cs:109-125 | the walked route connects start to end over walkable 8-neighbours along parent links; the waypoints are the as-written `EarlyTurns` of the route after the start, each a cell strictly between start and end, none when start and end coincide, and walked from the start they fall short of an end cell met only at the route's end |
| AStarSearch.WalkBack | Assets/Scripts/AStar.cs:111-118 | following parent links from the end reaches the start; the nodes met, turned round after the start, form a route along those links |
| AStarSearch.RetraceEndsAsWritten | Assets/Scripts/AStar.cs:119-123 | simplifying the start-less trail as written and reversing the result gives `EarlyTurns` of the route after the start |
| AStarSearch.AsWrittenWaypointsOnRoute | Assets/Scripts/AStar.cs:109-144 | the as-written waypoints lie strictly between the route's start and end, and fall short of an end cell met only at the end |
| AStarSearch.RetracePathCorrected | Assets/Scripts/AStar.cs:109-144 | the corrected half of the Findings row: with the start kept and `path[i - 1]` kept, the waypoints are the turns of the route, none when start and end coincide, otherwise ending at the end node's cell |
| AStarSearch.RetraceEnds | Assets/Scripts/AStar.cs:109-144 | the corrected half of the Findings row: simplifying the start-first trail with the corrected loop and reversing the result gives the turns of the route |
| AStarSearch.ContainsIsOpen | Assets/Scripts/AStar.cs:84 | for a node that is not closed, the heap's positional `Contains` holds exactly when the node is open |
| AStarSearch.SubsetNoLarger | Assets/Scripts/AStar.cs:49 | a subset is no larger than its superset, so the open set always fits in a heap of `MaxSize` slots |
| AStarSearch.PushOpen | Assets/Scripts/AStar.cs:91-92 | `Add` on the open heap: the heap mirrors the open set plus the node, and every index stays in range |
| AStarSearch.RaiseOpen | Assets/Scripts/AStar.cs:94-95 | `UpdateItem` after a cost fell: the heap still mirrors the same open set |
| AStarSearch.Relax | Assets/Scripts/AStar.cs:75-95 | a walkable neighbour that is not closed, and is new or cheaper through the current node, gets the new cost and parent and is open afterwards; otherwise nothing changes; the search invariant is kept |
| AStarSearch.OpenNode | Assets/Scripts/AStar.cs:86-92 | a new neighbour gets its cost and the current node as parent, and joins the open set with the invariant kept |
| AStarSearch.EnqueueOpen | Assets/Scripts/AStar.cs:91-92 | adding the updated neighbour to the heap restores the search invariant |
| AStarSearch.OpenSlot | Assets/Scripts/AStar.cs:84 | an open node sits in the live slot named by its index |
| AStarSearch.ReopenNode | Assets/Scripts/AStar.cs:86-95 | an open neighbour reached more cheaply gets the lower cost and the current node as parent, with the invariant kept |
| AStarSearch.RequeueOpen | Assets/Scripts/AStar.cs:94-95 | moving the cheaper node up restores the search invariant |
| AStarSearch.OpenRootIsBest | Assets/Scripts/AStar.cs:58 | the heap's root is at least as good as every open node |
| AStarSearch.LiveAfterPop | Assets/Scripts/AStar.cs:58 | the popped node was open, and the live items are the rest of the open set |
| AStarSearch.SlotsAfterPop | Assets/Scripts/AStar.cs:58-60 | after the pop every filled slot holds an open or a closed node |
| AStarSearch.PopOpen | Assets/Scripts/AStar.cs:58 | `RemoveFirst` returns an open node at least as good as every open node, and the heap mirrors the rest |
| AStarSearch.CloseNodeKeeps | Assets/Scripts/AStar.cs:60 | closing the popped node keeps each node's search state |
| AStarSearch.CloseNode | Assets/Scripts/AStar.cs:58-60 | closing the popped node keeps the sets disjoint and ranks it after every earlier closed node |
| AStarSearch.CloseSets | Assets/Scripts/AStar.cs:60 | moving an open node to the closed set keeps the sets disjoint and the ranks below the closed count |
| AStarSearch.CloseBest | Assets/Scripts/AStar.cs:58-60 | pops a best open node and closes it with the invariant kept |
| AStarSearch.Expand | Assets/Scripts/AStar.cs:73-96 | afterwards every walkable 8-neighbour of the current node is open or closed, no open node is lost, and the invariant is kept |
| AStarSearch.AllReached | Assets/Scripts/AStar.cs:73-96 | handling every listed neighbour reaches every walkable adjacent node |
| AStarSearch.ReachedGrows | Assets/Scripts/AStar.cs:73-96 | one more neighbour handled extends the reached prefix |
| AStarSearch.FrontierStep | Assets/Scripts/AStar.cs:58-96 | closing a node and opening its walkable neighbours keeps every walkable neighbour of a closed node open or closed |
| AStarSearch.SearchIsTree | Assets/Scripts/AStar.cs:63-71 | the closed nodes form a tree of parent links down to the start, ranked by closing order |
| AStarSearch.StaysInside | Assets/Scripts/AStar.cs:55-97 | with nothing open, a route from a closed node never leaves the closed set |
| AStarSearch.NoRoute | Assets/Scripts/AStar.cs:55-97 | an emptied open set with the target not closed means no walkable route reaches it |
| AStarSearch.CloseStep | Assets/Scripts/AStar.cs:58-60 | one loop head: a best open node leaves the open set and the invariant holds with it closed |
| AStarSearch.ExpandStep | Assets/Scripts/AStar.cs:73-96 | one loop body after a non-target node is closed: the invariant and the frontier property hold again |
| AStarSearch.SearchStarts | Assets/Scripts/AStar.cs:49-52 | the heap holding only the start node satisfies the search invariant |
| AStarSearch.StartSearch | Assets/Scripts/AStar.cs:49-52 | a fresh heap of `MaxSize` slots holding the start node, with the invariant established |
| AStarSearch.Search | Assets/Scripts/AStar.cs:49-97 | success means the target is closed in a parent tree rooted at the start; failure means no walkable route exists |
| AStarSearch.SearchEnds | Assets/Scripts/AStar.cs:55-97 | the loop's exit, by the target or by an empty heap, gives the tree or the absence of a route |
| AStarSearch.NoRouteFromBlocked | Assets/Scripts/AStar.cs:46 | no route starts or ends on a blocked node |
| AStarSearch.FreshGridInRange | Assets/Scripts/Grid.cs:86 | a freshly built grid's heap indices are all valid slots |
| AStarSearch.LocateAndSearch | Assets/Scripts/AStar.cs:30-97 | looks up both nodes by world position; success means the target is closed in a parent tree below the start, failure means no walkable route exists |
| AStarSearch.FindPath | Assets/Scripts/AStar.cs:30-106 | looks up both nodes by world position; on success the route along parent links is walkable and the waypoints are its as-written `EarlyTurns`, strictly between start and target, none when they coincide, and short of a target cell met only at the end; on failure there are none and no route exists |
| AStarSearch.FindPathCorrected | Assets/Scripts/AStar.cs:30-144 | the corrected half of the Findings row: as `FindPath`, but the waypoints are the turns of the route and end at the target's cell |
| AStarSearch.WaypointsRetraceRoute | Assets/Scripts/AStar.cs:109-144 | the corrected half of the Findings row: the corrected waypoints walked straight from the start give back the route, and the last one is the target |
| PathRequests.AnsweredInOrder | Assets/Scripts/PathRequestManager.cs:41-65 | callbacks answer the dispatched requests in order; only the last dispatched may be waiting |
| PathRequests.PathRequestManager.constructor | Assets/Scripts/PathRequestManager.cs:12-27 | nothing queued, nothing running, nothing done |
| PathRequests.PathRequestManager.RequestPath | Assets/Scripts/PathRequestManager.cs:30-38 | the request is submitted; it is only queued while a search runs, and dispatched at once otherwise |
| PathRequests.PathRequestManager.TryProcessNext | Assets/Scripts/PathRequestManager.cs:41-54 | when idle with a request waiting, the front request is dequeued and dispatched; otherwise nothing changes |
| PathRequests.PathRequestManager.FinishedProcessingPath | Assets/Scripts/PathRequestManager.cs:57-65 | the current request's callback gets the path and flag, then the next queued request is dispatched, and the invariant is kept |
| PathRequests.PathRequestManager.AllAnswered | Assets/Scripts/PathRequestManager.cs:57-65 | when idle, every submitted request has been dispatched and called back exactly once, in submission order |
| PathRequests.PathRequestManager.OneInFlight | Assets/Scripts/PathRequestManager.cs:41-54 | while a search runs, the answered requests, the current one and the queue together are the submitted requests in order |

## Left out

- Unity physics probes: `Physics.CheckSphere` and `Physics.Raycast` become input tables. `CreateGrid` takes each cell's walkability and the layer its ray hits, if any.
- `Awake` of `Grid`: computing the grid size from `gridWorldSize` and `nodeRadius`, and building the terrain dictionary from layer masks, are not modelled. The sizes, world sizes and the layer-to-penalty map are given to the constructor. `Mathf.Log` of the mask is not modelled.
- World positions are integers, and waypoints are grid cells rather than `Vector3` world positions. `WorldPosition` is not kept on nodes. Float division is modelled as exact rational arithmetic rounded half to even, so float rounding error is not captured.
- Grids.Grid.CreateGrid: requires a grid of at least 4 x 4 cells. The code's first horizontal and vertical sums read cells 0 to 3 and fail on a smaller grid.
- 32-bit overflow of costs, penalties, blur sums and `MaxSize` is not modelled; integers are unbounded.
- `StartFindPath`, the coroutine, the `Stopwatch`, `print` and `yield return null` are left out. `FindPath` is one synchronous call, and its hand-off to `FinishedProcessingPath` is left to the caller. In `PathRequests`, starting a search and calling a callback are logged events.
- The `PathRequestManager` singleton and `GetComponent` lookups: the manager is an ordinary object, and a callback is an opaque number.
- PathRequests.PathRequestManager.FinishedProcessingPath: its contract keeps the invariant only when a search was running. Called while idle after some request was dispatched, the code answers that request a second time, and the model's log records that too. Before any request has been dispatched, the current request is a default struct whose callback is null, so the code throws a `NullReferenceException`; the requires `currentPathRequest.Some?` excludes that call, and the exception is not modelled.
- AStarSearch.FindPath: requires every node's heap index to be a valid slot. `FreshGridInRange` shows that a newly built grid meets this, and `FindPath` keeps it for the next call.
- AStarSearch.RetracePathCorrected: models the evident intent of `RetracePath`, not the code; `AStarSearch.RetracePath` is the code as written.
- AStarSearch.FindPathCorrected: models `FindPath` with the corrected `RetracePath`, not the code; `AStarSearch.FindPath` is the code as written.
- AStarSearch.RetraceEnds: states the corrected trail, start included, not the code's; `AStarSearch.RetraceEndsAsWritten` states the code's.
- AStarSearch.WaypointsRetraceRoute: the round trip holds for the corrected waypoints only; the code's waypoints fall short, as `AStarSearch.AsWrittenWaypointsOnRoute` states.
- AStarSearch.FindPath: does not state that the found route is the cheapest. The model proves the route is valid and that failure means no route exists. It does not prove optimality.
- Heaps.Heap.Add: requires a free slot and an item that is not already live. The code would throw or corrupt the heap otherwise, and the search never does either.
- Heaps.Heap.UpdateItem: requires that the item's key only improved, which is how the search uses it. After a worse key the code's `SortUp` would leave the heap out of order.
- `OnDrawGizmos` and the display flags are not modelled. The penalty bounds it reads are modelled.
- Generic `Heap<T>` and `IHeapItem<T>`: the heap holds `GridNode`s only.

## Findings

| source | as written | input that shows it | evidently intended | confidence | as-written member | corrected member |
|---|---|---|---|---|---|---|
| Assets/Scripts/AStar.cs:109-144 | `RetracePath` leaves the start node out of the trail. `SimplifyPath` then keeps `path[i]`, the cell after each turn on the way back, so the target is never a waypoint. | Open grid, start (0,0), target (1,0): the search succeeds, the trail is [(1,0)], and the loop adds nothing, so success comes with no waypoints. With target (2,0) the only waypoint is (1,0). | The waypoints end at the target, and walked straight from the start they give back the route: the start is kept at the end of the trail and `path[i - 1]` is kept. | medium, not executed | Waypoints.SimplifyPathAsWritten, Waypoints.AsWrittenStopsShort, AStarSearch.RetracePath, AStarSearch.FindPath | Waypoints.SimplifyPath, Waypoints.RewalkTurns, AStarSearch.RetracePathCorrected, AStarSearch.FindPathCorrected, AStarSearch.WaypointsRetraceRoute |
