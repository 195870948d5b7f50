/**
 * The A* search over the grid: the octile distance that serves as both step
 * cost and heuristic, the search loop over the open heap and the closed set,
 * and the walk back along the parent links that turns the found route into
 * waypoints.
 */
module AStarSearch {
  import opened Numerics
  import opened GridNodes
  import opened Heaps
  import opened Grids
  import opened Waypoints

  /**
   * `GetDistance`: 14 per diagonal step and 10 per straight step, taking as
   * many diagonal steps as the shorter axis allows.
   */
  function GetDistance(nodeA: GridNode, nodeB: GridNode): (d: int)
    ensures d == 10 * Max(Abs(nodeA.gridX - nodeB.gridX), Abs(nodeA.gridY - nodeB.gridY))
                 + 4 * Min(Abs(nodeA.gridX - nodeB.gridX), Abs(nodeA.gridY - nodeB.gridY))
  {
    var dstX := Abs(nodeA.gridX - nodeB.gridX);
    var dstY := Abs(nodeA.gridY - nodeB.gridY);
    if dstX > dstY then 14 * dstY + 10 * (dstX - dstY) else 14 * dstX + 10 * (dstY - dstX)
  }

  /**
   * The distance is the octile distance: 10 per king move (the Chebyshev
   * distance) plus 4 for each of those moves that is diagonal.
   */
  lemma GetDistanceIsOctile(a: GridNode, b: GridNode)
    ensures GetDistance(a, b) == 10 * Max(Abs(a.gridX - b.gridX), Abs(a.gridY - b.gridY))
                                 + 4 * Min(Abs(a.gridX - b.gridX), Abs(a.gridY - b.gridY))
    ensures GetDistance(a, b) == Octile(a.gridX, a.gridY, b.gridX, b.gridY)
  {
  }

  /** The distance is a metric on cells: never negative, zero exactly on the same cell, symmetric. */
  lemma GetDistanceMetric(a: GridNode, b: GridNode)
    ensures GetDistance(a, b) >= 0
    ensures GetDistance(a, b) == 0 <==> a.gridX == b.gridX && a.gridY == b.gridY
    ensures GetDistance(a, b) == GetDistance(b, a)
  {
  }

  /** One step to an 8-neighbour costs 10 straight and 14 diagonally. */
  lemma GetDistanceOfStep(a: GridNode, b: GridNode)
    requires Adjacent(a, b)
    ensures GetDistance(a, b) == if a.gridX != b.gridX && a.gridY != b.gridY then 14 else 10
  {
  }

  /** The octile distance between two points, as 6 per king move plus 4 per unit of taxicab distance. */
  ghost function Octile(x1: int, y1: int, x2: int, y2: int): int
  {
    6 * Max(Abs(x1 - x2), Abs(y1 - y2)) + 4 * (Abs(x1 - x2) + Abs(y1 - y2))
  }

  /** The distance along one axis obeys the triangle inequality. */
  lemma AxisTriangle(x1: int, x2: int, x3: int)
    ensures Abs(x1 - x3) <= Abs(x1 - x2) + Abs(x2 - x3)
  {
  }

  /** A maximum of two bounded numbers is bounded by the sum of the bounds' maxima. */
  lemma MaxOfSums(p: int, q: int, r: int, s: int, t: int, u: int)
    requires p <= r + t && q <= s + u
    ensures Max(p, q) <= Max(r, s) + Max(t, u)
  {
  }

  /** The octile distance obeys the triangle inequality. */
  lemma OctileTriangle(x1: int, y1: int, x2: int, y2: int, x3: int, y3: int)
    ensures Octile(x1, y1, x3, y3) <= Octile(x1, y1, x2, y2) + Octile(x2, y2, x3, y3)
  {
    AxisTriangle(x1, x2, x3);
    AxisTriangle(y1, y2, y3);
    MaxOfSums(Abs(x1 - x3), Abs(y1 - y3), Abs(x1 - x2), Abs(y1 - y2), Abs(x2 - x3), Abs(y2 - y3));
  }

  /** Going through a third cell is never shorter, so the heuristic is consistent with the step costs. */
  lemma GetDistanceTriangle(a: GridNode, b: GridNode, c: GridNode)
    ensures GetDistance(a, c) <= GetDistance(a, b) + GetDistance(b, c)
  {
    GetDistanceIsOctile(a, b);
    GetDistanceIsOctile(b, c);
    GetDistanceIsOctile(a, c);
    OctileTriangle(a.gridX, a.gridY, b.gridX, b.gridY, c.gridX, c.gridY);
  }

  /** The cell a node stands for. */
  function CellOf(n: GridNode): Cell
  {
    Cell(n.gridX, n.gridY)
  }

  /** The cells of a sequence of nodes, in order. */
  function CellsOf(s: seq<GridNode>): (r: seq<Cell>)
    ensures |r| == |s| && forall i :: 0 <= i < |s| ==> r[i] == CellOf(s[i])
  {
    seq(|s|, i requires 0 <= i < |s| => CellOf(s[i]))
  }

  /** w is a route from a to b over walkable nodes of the grid, each an 8-neighbour of the one before. */
  predicate Connects(cells: set<GridNode>, w: seq<GridNode>, a: GridNode, b: GridNode)
  {
    |w| > 0 && w[0] == a && w[|w| - 1] == b &&
    (forall i :: 0 <= i < |w| ==> w[i] in cells && w[i].walkable) &&
    (forall i :: 0 < i < |w| ==> Adjacent(w[i - 1], w[i]))
  }

  /** A route over 8-neighbours is a king's walk over their cells. */
  lemma ConnectsIsWalk(cells: set<GridNode>, w: seq<GridNode>, a: GridNode, b: GridNode)
    requires Connects(cells, w, a, b)
    ensures IsWalk(CellsOf(w)) && CellsOf(w)[0] == CellOf(a) && CellsOf(w)[|w| - 1] == CellOf(b)
  {
    var r := CellsOf(w);
    forall j | 0 < j < |r|
      ensures KingStep(r[j - 1], r[j])
    {
      assert Adjacent(w[j - 1], w[j]);
    }
  }

  /** Reversing the nodes reverses their cells. */
  lemma {:induction false} CellsOfReverse(s: seq<GridNode>)
    ensures CellsOf(Reverse(s)) == Reverse(CellsOf(s))
    decreases |s|
  {
    if s != [] {
      var init := s[..|s| - 1];
      CellsOfReverse(init);
      assert CellsOf(s)[..|s| - 1] == CellsOf(init);
      assert CellsOf(Reverse(s)) == [CellOf(s[|s| - 1])] + CellsOf(Reverse(init));
    }
  }

  /**
   * The closed nodes form a tree below the start: each is a walkable node of
   * the grid and, unless it is the start, hangs below a closed 8-neighbour
   * closed before it; `rank` numbers the closed nodes in the order they were closed.
   */
  ghost predicate Tree(cells: set<GridNode>, closed: set<GridNode>, rank: map<GridNode, nat>, start: GridNode)
    reads closed`parent
  {
    closed <= cells && rank.Keys == closed &&
    forall n :: n in closed ==> n.walkable && (n != start ==> n.parent in closed && Adjacent(n.parent, n) && rank[n.parent] < rank[n])
  }

  /**
   * One step back along the parent links: a route from a closed node c other
   * than the start, built from the reversed trail `path`, grows by c's parent,
   * which was closed before c.
   */
  lemma RetraceStep(cells: set<GridNode>, closed: set<GridNode>, rank: map<GridNode, nat>, start: GridNode,
                    route: seq<GridNode>, path: seq<GridNode>, c: GridNode, end: GridNode)
    requires Tree(cells, closed, rank, start) && c in closed && c != start
    requires route == [c] + Reverse(path) && Connects(cells, route, c, end)
    requires forall i :: 0 < i < |route| ==> route[i].parent == route[i - 1]
    ensures c.parent in closed && rank[c.parent] < rank[c]
    ensures [c.parent] + route == [c.parent] + Reverse(path + [c])
    ensures Connects(cells, [c.parent] + route, c.parent, end)
    ensures forall i :: 0 < i < |route| + 1 ==> ([c.parent] + route)[i].parent == ([c.parent] + route)[i - 1]
  {
    ReversedSnoc(path, c);
    var r := [c.parent] + route;
    forall i | 0 < i < |r|
      ensures Adjacent(r[i - 1], r[i]) && r[i].parent == r[i - 1]
    {
      assert r[i] == route[i - 1];
    }
  }

  /**
   * `RetracePath` as the code has it: follows the parent links from the end
   * node until the start, which it leaves out, cuts that trail with
   * `SimplifyPathAsWritten` and turns the result round. Every waypoint is a
   * cell the route passes strictly between start and end; so when the end's
   * cell occurs only at the end of the route, walking the waypoints from the
   * start never reaches it.
   */
  method RetracePath(startNode: GridNode, endNode: GridNode, ghost cells: set<GridNode>,
                     ghost closed: set<GridNode>, ghost rank: map<GridNode, nat>)
    returns (waypoints: seq<Cell>, ghost route: seq<GridNode>)
    requires endNode in closed && Tree(cells, closed, rank, startNode)
    ensures Connects(cells, route, startNode, endNode)
    ensures forall i :: 0 < i < |route| ==> route[i].parent == route[i - 1]
    ensures waypoints == EarlyTurns(CellsOf(route)[1..])
    ensures forall c :: c in waypoints ==> c in CellsOf(route)[1..|route| - 1]
    ensures startNode == endNode ==> waypoints == []
    ensures startNode != endNode && CellOf(endNode) !in CellsOf(route)[..|route| - 1] ==>
              Rewalk(CellOf(startNode), waypoints) != CellsOf(route)[1..]
  {
    var path;
    path, route := WalkBack(startNode, endNode, cells, closed, rank);
    var simplified := SimplifyPathAsWritten(CellsOf(path));
    RetraceEndsAsWritten(path, startNode, route, simplified);
    waypoints := Reverse(simplified);
    AsWrittenWaypointsOnRoute(cells, route, startNode, endNode);
  }

  /**
   * `RetracePath` corrected: the start is put back at the end of the trail and
   * the trail is cut with the corrected `SimplifyPath`. The waypoints are
   * where the route turns, then its end.
   */
  method RetracePathCorrected(startNode: GridNode, endNode: GridNode, ghost cells: set<GridNode>,
                              ghost closed: set<GridNode>, ghost rank: map<GridNode, nat>)
    returns (waypoints: seq<Cell>, ghost route: seq<GridNode>)
    requires endNode in closed && Tree(cells, closed, rank, startNode)
    ensures Connects(cells, route, startNode, endNode)
    ensures forall i :: 0 < i < |route| ==> route[i].parent == route[i - 1]
    ensures waypoints == Turns(CellsOf(route))
    ensures startNode == endNode ==> waypoints == []
    ensures startNode != endNode ==> waypoints != [] && waypoints[|waypoints| - 1] == CellOf(endNode)
  {
    var path;
    path, route := WalkBack(startNode, endNode, cells, closed, rank);
    ghost var trail := path;
    path := path + [startNode];
    var simplified := SimplifyPath(CellsOf(path));
    RetraceEnds(trail, startNode, route, simplified);
    waypoints := Reverse(simplified);
    if startNode != endNode {
      WaypointsRetraceRoute(cells, route, startNode, endNode);
    }
  }

  /**
   * The loop of `RetracePath`: the nodes met following the parent links from
   * the end node until the start, end first and the start left out.
   */
  method WalkBack(startNode: GridNode, endNode: GridNode, ghost cells: set<GridNode>,
                  ghost closed: set<GridNode>, ghost rank: map<GridNode, nat>)
    returns (path: seq<GridNode>, ghost route: seq<GridNode>)
    requires endNode in closed && Tree(cells, closed, rank, startNode)
    ensures route == [startNode] + Reverse(path) && Connects(cells, route, startNode, endNode)
    ensures forall i :: 0 < i < |route| ==> route[i].parent == route[i - 1]
    ensures startNode == endNode ==> path == []
  {
    path := [];
    var currentNode := endNode;
    route := [currentNode];
    while currentNode != startNode
      invariant currentNode in closed
      invariant route == [currentNode] + Reverse(path)
      invariant Connects(cells, route, currentNode, endNode)
      invariant forall i :: 0 < i < |route| ==> route[i].parent == route[i - 1]
      invariant path == [] ==> currentNode == endNode
      invariant path != [] ==> rank[currentNode] < rank[endNode]
      decreases rank[currentNode]
    {
      RetraceStep(cells, closed, rank, startNode, route, path, currentNode, endNode);
      path := path + [currentNode];
      currentNode := currentNode.parent;
      route := [currentNode] + route;
    }
  }

  /** The as-written waypoints of the start-less trail, turned round, are those of the route after the start. */
  lemma RetraceEndsAsWritten(trail: seq<GridNode>, start: GridNode, route: seq<GridNode>, simplified: seq<Cell>)
    requires route == [start] + Reverse(trail)
    requires Reverse(simplified) == EarlyTurns(Reverse(CellsOf(trail)))
    ensures Reverse(simplified) == EarlyTurns(CellsOf(route)[1..])
  {
    CellsOfReverse(trail);
    assert CellsOf(route)[1..] == CellsOf(Reverse(trail));
  }

  /**
   * The as-written waypoints of a route lie strictly between its start and
   * its end; when the end's cell occurs nowhere earlier on the route, walking
   * them from the start does not give back the route.
   */
  lemma AsWrittenWaypointsOnRoute(cells: set<GridNode>, route: seq<GridNode>, start: GridNode, target: GridNode)
    requires Connects(cells, route, start, target)
    ensures forall c :: c in EarlyTurns(CellsOf(route)[1..]) ==> c in CellsOf(route)[1..|route| - 1]
    ensures |route| >= 2 && CellOf(target) !in CellsOf(route)[..|route| - 1] ==>
              Rewalk(CellOf(start), EarlyTurns(CellsOf(route)[1..])) != CellsOf(route)[1..]
  {
    var r := CellsOf(route);
    EarlyTurnsBeforeTarget(r[1..]);
    if |route| >= 2 {
      assert r[1..][..|r| - 2] == r[1..|r| - 1];
      if CellOf(target) !in r[..|r| - 1] {
        ConnectsIsWalk(cells, route, start, target);
        AsWrittenStopsShort(r);
      }
    }
  }

  /** The corrected waypoints of the trail back to the start, turned round, are the turns of the route from the start. */
  lemma RetraceEnds(trail: seq<GridNode>, start: GridNode, route: seq<GridNode>, simplified: seq<Cell>)
    requires route == [start] + Reverse(trail)
    requires Reverse(simplified) == Turns(Reverse(CellsOf(trail + [start])))
    ensures Reverse(simplified) == Turns(CellsOf(route))
  {
    ReversedSnoc(trail, start);
    CellsOfReverse(trail + [start]);
  }

  /**
   * The open heap holds exactly the open nodes, once each, in heap order, with
   * every item's `heapIndex` naming its slot.
   */
  ghost predicate Mirrors(heap: Heap, open: set<GridNode>)
    reads heap, heap.items, heap.items[..]`heapIndex, heap.items[..]`gCost, heap.items[..]`hCost
  {
    heap.Valid() && heap.Ordered() && |open| == heap.count && multiset(heap.items[..heap.count]) == multiset(open)
  }

  /** Every slot of `slots` that was ever filled holds an open or a closed node. */
  ghost predicate Slots(slots: seq<GridNode?>, open: set<GridNode>, closed: set<GridNode>)
  {
    forall j :: 0 <= j < |slots| && slots[j] != null ==> slots[j] in open || slots[j] in closed
  }

  /** Every node's `heapIndex` is a slot of a heap of `size` slots, so `Contains` may read it. */
  ghost predicate InRange(cells: set<GridNode>, size: int)
    reads cells`heapIndex
  {
    forall n :: n in cells ==> 0 <= n.heapIndex < size
  }

  /**
   * What the search keeps true of one node: an open or closed node is
   * walkable and, unless it is the start, hangs below a closed 8-neighbour;
   * an open one carries its distance to the target as H cost; a closed one
   * was closed after its parent.
   */
  ghost predicate NodeState(n: GridNode, open: set<GridNode>, closed: set<GridNode>, rank: map<GridNode, nat>,
                            start: GridNode, target: GridNode)
    reads n`parent, n`hCost
  {
    (n in open || n in closed ==> n.walkable) &&
    (n != start && (n in open || n in closed) ==> n.parent in closed && Adjacent(n.parent, n)) &&
    (n != start && n in open ==> n.hCost == GetDistance(n, target)) &&
    (n != start && n in closed ==> n in rank && n.parent in rank && rank[n.parent] < rank[n])
  }

  ghost predicate NodesState(cells: set<GridNode>, open: set<GridNode>, closed: set<GridNode>, rank: map<GridNode, nat>,
                             start: GridNode, target: GridNode)
    reads cells`parent, cells`hCost
  {
    forall n :: n in cells ==> NodeState(n, open, closed, rank, start, target)
  }

  /**
   * The open and closed sets are disjoint sets of grid nodes, and `rank`
   * numbers the closed nodes in the order they were closed.
   */
  predicate SearchSets(cells: set<GridNode>, open: set<GridNode>, closed: set<GridNode>, rank: map<GridNode, nat>)
  {
    open <= cells && closed <= cells && open !! closed && rank.Keys == closed &&
    forall n :: n in closed ==> rank[n] < |closed|
  }

  /** The state of the search between two neighbours. */
  ghost predicate Searching(cells: set<GridNode>, heap: Heap, open: set<GridNode>, closed: set<GridNode>,
                            rank: map<GridNode, nat>, start: GridNode, target: GridNode)
    reads heap, heap.items, heap.items[..]`heapIndex, heap.items[..]`gCost, heap.items[..]`hCost
    reads cells`heapIndex, cells`parent, cells`hCost
  {
    Mirrors(heap, open) && Slots(heap.items[..], open, closed) && heap.items.Length == |cells| &&
    InRange(cells, |cells|) && SearchSets(cells, open, closed, rank) && NodesState(cells, open, closed, rank, start, target)
  }

  /** Outside the closed set, the code's positional `Contains` tells exactly whether a node is open. */
  lemma ContainsIsOpen(heap: Heap, open: set<GridNode>, closed: set<GridNode>, n: GridNode)
    requires Mirrors(heap, open) && Slots(heap.items[..], open, closed)
    requires 0 <= n.heapIndex < heap.items.Length && n !in closed
    ensures heap.Contains(n) <==> n in open
  {
    if heap.Contains(n) {
      assert heap.items[..][n.heapIndex] == n;
    }
    if n in open {
      assert n in multiset(heap.items[..heap.count]);
    }
  }

  /** A subset is no larger than the set it sits in. */
  lemma {:induction false} SubsetNoLarger<T>(a: set<T>, b: set<T>)
    requires a <= b
    ensures |a| <= |b|
    decreases |a|
  {
    if a != {} {
      var x :| x in a;
      SubsetNoLarger(a - {x}, b - {x});
    }
  }

  /** `Heap.Add` on the open heap: the node joins the open set. */
  method PushOpen(heap: Heap, ghost cells: set<GridNode>, ghost open: set<GridNode>, ghost closed: set<GridNode>,
                  item: GridNode)
    requires Mirrors(heap, open) && Slots(heap.items[..], open, closed)
    requires heap.items.Length == |cells| && InRange(cells, |cells|)
    requires open <= cells && item in cells && item !in open && item !in closed
    modifies heap, heap.items, cells`heapIndex
    ensures Mirrors(heap, open + {item}) && Slots(heap.items[..], open + {item}, closed)
    ensures InRange(cells, |cells|)
  {
    assert |open + {item}| <= |cells| by {
      SubsetNoLarger(open + {item}, cells);
    }
    assert item !in heap.items[..heap.count] by {
      assert item !in multiset(open);
    }
    ghost var slots, live := heap.items[..], heap.items[..heap.count];
    forall j | 0 <= j < heap.count
      ensures heap.items[j] in cells
    {
      assert heap.items[j] in multiset(live);
    }
    heap.Add(item);
    forall j | 0 <= j < heap.items.Length && heap.items[j] != null
      ensures heap.items[j] in open + {item} || heap.items[j] in closed
    {
      if j < heap.count {
        assert heap.items[j] in multiset(heap.items[..heap.count]);
      } else {
        assert heap.items[j] == slots[j];
      }
    }
    forall n | n in cells
      ensures 0 <= n.heapIndex < |cells|
    {
      if n in heap.items[..heap.count] {
        var j :| 0 <= j < heap.count && heap.items[j] == n;
      } else {
        assert n !in multiset(heap.items[..heap.count]);
        assert n !in live;
        assert n.heapIndex == old(n.heapIndex);
      }
    }
  }

  /** `Heap.UpdateItem` on the open heap after an open node's costs fell: the open set stays as it was. */
  method RaiseOpen(heap: Heap, ghost cells: set<GridNode>, ghost open: set<GridNode>, ghost closed: set<GridNode>,
                   item: GridNode, ghost before: seq<Priority>)
    requires heap.Valid() && |open| == heap.count && multiset(heap.items[..heap.count]) == multiset(open)
    requires Slots(heap.items[..], open, closed)
    requires heap.items.Length == |cells| && InRange(cells, |cells|) && open <= cells
    requires 0 <= item.heapIndex < heap.count && heap.items[item.heapIndex] == item
    requires HeapOrdered(before) && |before| == heap.count
    requires KeysAre(heap.items[..heap.count], before[item.heapIndex := item.Key()])
    requires Compare(item.Key(), before[item.heapIndex]) >= 0
    modifies heap.items, cells`heapIndex
    ensures Mirrors(heap, open) && Slots(heap.items[..], open, closed)
    ensures InRange(cells, |cells|)
  {
    ghost var slots, live := heap.items[..], heap.items[..heap.count];
    forall j | 0 <= j < heap.count
      ensures heap.items[j] in cells
    {
      assert heap.items[j] in multiset(live);
    }
    heap.UpdateItem(item, before);
    forall j | 0 <= j < heap.items.Length && heap.items[j] != null
      ensures heap.items[j] in open || heap.items[j] in closed
    {
      if j < heap.count {
        assert heap.items[j] in multiset(heap.items[..heap.count]);
      } else {
        assert heap.items[j] == slots[j];
      }
    }
    forall n | n in cells
      ensures 0 <= n.heapIndex < |cells|
    {
      if n in heap.items[..heap.count] {
        var j :| 0 <= j < heap.count && heap.items[j] == n;
      } else {
        assert n !in multiset(heap.items[..heap.count]);
        assert n !in live;
        assert n.heapIndex == old(n.heapIndex);
      }
    }
  }

  /**
   * The body of the loop over a neighbour: skips an unwalkable or closed
   * neighbour, and an open one that the current node does not reach more
   * cheaply; otherwise the neighbour takes the new costs and the current
   * node as parent, and joins the open heap or moves up in it.
   */
  method Relax(heap: Heap, ghost cells: set<GridNode>, closedSet: set<GridNode>, ghost open: set<GridNode>,
               ghost rank: map<GridNode, nat>, currentNode: GridNode, neighbour: GridNode,
               targetNode: GridNode, ghost startNode: GridNode)
    returns (ghost open': set<GridNode>)
    requires Searching(cells, heap, open, closedSet, rank, startNode, targetNode)
    requires currentNode in closedSet && startNode in closedSet && neighbour in cells && Adjacent(currentNode, neighbour)
    modifies heap, heap.items, cells`heapIndex, neighbour`gCost, neighbour`hCost, neighbour`parent
    ensures Searching(cells, heap, open', closedSet, rank, startNode, targetNode)
    ensures open <= open' <= open + {neighbour}
    ensures neighbour.walkable ==> neighbour in open' || neighbour in closedSet
    ensures var cost := old(currentNode.gCost) + GetDistance(currentNode, neighbour) + neighbour.movementPenalty;
      if neighbour.walkable && neighbour !in closedSet && (neighbour !in open || cost < old(neighbour.gCost))
      then open' == open + {neighbour} && neighbour.gCost == cost && neighbour.parent == currentNode
      else open' == open && neighbour.gCost == old(neighbour.gCost) && neighbour.parent == old(neighbour.parent)
  {
    open' := open;
    if !neighbour.walkable || neighbour in closedSet {
      return;
    }
    ContainsIsOpen(heap, open, closedSet, neighbour);
    var newMovementCostToNeighbour := currentNode.gCost + GetDistance(currentNode, neighbour) + neighbour.movementPenalty;
    if newMovementCostToNeighbour >= neighbour.gCost && heap.Contains(neighbour) {
      return;
    }
    if !heap.Contains(neighbour) {
      OpenNode(heap, cells, closedSet, open, rank, currentNode, neighbour, targetNode, startNode, newMovementCostToNeighbour);
      open' := open + {neighbour};
    } else {
      ReopenNode(heap, cells, closedSet, open, rank, currentNode, neighbour, targetNode, startNode, newMovementCostToNeighbour);
    }
  }

  /**
   * Costs and parent set on a node outside the heap's live slots leave the
   * heap's order, its indices and every node's `heapIndex` as they were.
   */
  twostate lemma HeapUntouched(heap: Heap, new cells: set<GridNode>, new live: seq<GridNode?>, new ks: seq<Priority>,
                                new n: GridNode)
    requires old(allocated(cells) && allocated(live) && allocated(n))
    requires old(heap.Valid() && heap.count <= heap.items.Length) && live == old(heap.items[..heap.count])
    requires old(InRange(cells, |cells|)) && old(KeysAre(live, ks)) && HeapOrdered(ks)
    requires unchanged(heap, heap.items) && n !in live
    requires forall m: GridNode :: old(allocated(m)) && m != n ==>
      m.gCost == old(m.gCost) && m.hCost == old(m.hCost) && m.parent == old(m.parent) && m.heapIndex == old(m.heapIndex)
    requires n.heapIndex == old(n.heapIndex)
    ensures heap.Valid() && heap.Ordered() && InRange(cells, |cells|)
  {
    forall i | 0 <= i < |live|
      ensures live[i] != null && live[i].heapIndex == i && live[i].Key() == ks[i]
    {
      assert live[i] != n;
    }
    SlotsOrderedKeys(live, ks);
    forall m | m in cells
      ensures 0 <= m.heapIndex < |cells|
    {
      assert old(0 <= m.heapIndex < |cells|);
    }
  }

  /** Costs and parents set on nodes leave the heap's indices and every node's `heapIndex` as they were. */
  twostate lemma IndicesUntouched(heap: Heap, new cells: set<GridNode>)
    requires old(allocated(cells))
    requires old(heap.Valid()) && old(InRange(cells, |cells|))
    requires unchanged(heap, heap.items)
    requires forall m: GridNode :: old(allocated(m)) ==> m.heapIndex == old(m.heapIndex)
    ensures heap.Valid() && InRange(cells, |cells|)
  {
    forall m | m in cells
      ensures 0 <= m.heapIndex < |cells|
    {
      assert old(0 <= m.heapIndex < |cells|);
    }
  }

  /** Changes that leave every node's parent and H cost alone keep the state of every node. */
  twostate lemma NodesKept(cells: set<GridNode>, new open: set<GridNode>, new closed: set<GridNode>,
                           new rank: map<GridNode, nat>, new start: GridNode, new target: GridNode)
    requires old(allocated(open) && allocated(closed) && allocated(rank) && allocated(start) && allocated(target))
    requires old(NodesState(cells, open, closed, rank, start, target))
    requires forall m: GridNode :: old(allocated(m)) ==> m.parent == old(m.parent) && m.hCost == old(m.hCost)
    ensures NodesState(cells, open, closed, rank, start, target)
  {
    forall n | n in cells
      ensures NodeState(n, open, closed, rank, start, target)
    {
      assert old(NodeState(n, open, closed, rank, start, target));
    }
  }

  /**
   * Changing one node `n`, and perhaps opening it, keeps the state of every
   * node once `n`'s own state holds.
   */
  twostate lemma NodesUpdated(cells: set<GridNode>, new open: set<GridNode>, new open': set<GridNode>,
                              new closed: set<GridNode>, new rank: map<GridNode, nat>, new start: GridNode,
                              new target: GridNode, new n: GridNode)
    requires old(allocated(open) && allocated(closed) && allocated(rank) && allocated(start) && allocated(target))
    requires old(NodesState(cells, open, closed, rank, start, target))
    requires open' == open || open' == open + {n}
    requires forall m: GridNode :: old(allocated(m)) && m != n ==> m.parent == old(m.parent) && m.hCost == old(m.hCost)
    requires NodeState(n, open', closed, rank, start, target)
    ensures NodesState(cells, open', closed, rank, start, target)
  {
    forall m | m in cells
      ensures NodeState(m, open', closed, rank, start, target)
    {
      if m != n {
        assert old(NodeState(m, open, closed, rank, start, target));
      }
    }
  }

  /**
   * A neighbour reached for the first time: it takes the new G cost, its
   * distance to the target as H cost and the current node as parent, and
   * joins the open heap.
   */
  method OpenNode(heap: Heap, ghost cells: set<GridNode>, closedSet: set<GridNode>, ghost open: set<GridNode>,
                  ghost rank: map<GridNode, nat>, currentNode: GridNode, neighbour: GridNode,
                  targetNode: GridNode, ghost startNode: GridNode, newCost: int)
    requires Searching(cells, heap, open, closedSet, rank, startNode, targetNode)
    requires currentNode in closedSet && neighbour in cells && Adjacent(currentNode, neighbour)
    requires neighbour.walkable && neighbour !in closedSet && neighbour !in open
    modifies heap, heap.items, cells`heapIndex, neighbour`gCost, neighbour`hCost, neighbour`parent
    ensures Searching(cells, heap, open + {neighbour}, closedSet, rank, startNode, targetNode)
    ensures neighbour.gCost == newCost && neighbour.parent == currentNode
  {
    ghost var live := heap.items[..heap.count];
    ghost var ks := KeysOf(live);
    assert HeapOrdered(ks) by {
      SlotsOrderedKeys(live, ks);
    }
    assert neighbour !in heap.items[..];
    neighbour.gCost := newCost;
    neighbour.hCost := GetDistance(neighbour, targetNode);
    neighbour.parent := currentNode;
    HeapUntouched(heap, cells, live, ks, neighbour);
    NodesUpdated(cells, open, open + {neighbour}, closedSet, rank, startNode, targetNode, neighbour);
    label Updated:
    EnqueueOpen(heap, cells, closedSet, open, rank, neighbour, targetNode, startNode);
    assert neighbour.gCost == old@Updated(neighbour.gCost) && neighbour.parent == old@Updated(neighbour.parent);
  }

  /** `PushOpen` once the new open node's state is set: the search state now takes it in. */
  method EnqueueOpen(heap: Heap, ghost cells: set<GridNode>, ghost closedSet: set<GridNode>, ghost open: set<GridNode>,
                     ghost rank: map<GridNode, nat>, neighbour: GridNode, ghost targetNode: GridNode,
                     ghost startNode: GridNode)
    requires Mirrors(heap, open) && Slots(heap.items[..], open, closedSet)
    requires heap.items.Length == |cells| && InRange(cells, |cells|)
    requires SearchSets(cells, open, closedSet, rank) && NodesState(cells, open + {neighbour}, closedSet, rank, startNode, targetNode)
    requires neighbour in cells && neighbour !in open && neighbour !in closedSet
    modifies heap, heap.items, cells`heapIndex
    ensures Searching(cells, heap, open + {neighbour}, closedSet, rank, startNode, targetNode)
  {
    label Before:
    PushOpen(heap, cells, open, closedSet, neighbour);
    NodesKept@Before(cells, open + {neighbour}, closedSet, rank, startNode, targetNode);
  }

  /** An open node sits in the live slot its `heapIndex` names. */
  lemma OpenSlot(heap: Heap, open: set<GridNode>, n: GridNode)
    requires Mirrors(heap, open) && n in open
    ensures 0 <= n.heapIndex < heap.count && heap.items[n.heapIndex] == n
  {
    assert n in multiset(heap.items[..heap.count]);
    var j :| 0 <= j < heap.count && heap.items[..heap.count][j] == n;
  }

  /**
   * New costs on the item in live slot `n.heapIndex`, and on nothing else,
   * change the priorities of the live slots in that slot alone.
   */
  twostate lemma KeysLowered(heap: Heap, new live: seq<GridNode?>, new before: seq<Priority>, new n: GridNode)
    requires old(allocated(live) && allocated(n))
    requires old(heap.Valid() && heap.count <= heap.items.Length) && live == old(heap.items[..heap.count])
    requires old(KeysAre(live, before)) && 0 <= n.heapIndex < |live| && live[n.heapIndex] == n
    requires unchanged(heap, heap.items)
    requires forall m: GridNode :: old(allocated(m)) && m != n ==>
      m.gCost == old(m.gCost) && m.hCost == old(m.hCost) && m.parent == old(m.parent) && m.heapIndex == old(m.heapIndex)
    requires n.heapIndex == old(n.heapIndex)
    ensures heap.items[..heap.count] == live
    ensures KeysAre(live, before[n.heapIndex := n.Key()])
  {
    forall i | 0 <= i < |live| && i != n.heapIndex
      ensures live[i] != null && live[i].Key() == before[i]
    {
      assert old(live[i] != null && live[i].Key() == before[i] && live[i].heapIndex == i);
    }
  }

  /**
   * An open neighbour the current node reaches more cheaply: it takes the
   * lower G cost, its distance to the target as H cost again and the current
   * node as parent, and moves up in the open heap.
   */
  method ReopenNode(heap: Heap, ghost cells: set<GridNode>, closedSet: set<GridNode>, ghost open: set<GridNode>,
                    ghost rank: map<GridNode, nat>, currentNode: GridNode, neighbour: GridNode,
                    targetNode: GridNode, ghost startNode: GridNode, newCost: int)
    requires Searching(cells, heap, open, closedSet, rank, startNode, targetNode)
    requires currentNode in closedSet && startNode in closedSet && neighbour in cells && Adjacent(currentNode, neighbour)
    requires neighbour in open && newCost < neighbour.gCost
    modifies heap.items, cells`heapIndex, neighbour`gCost, neighbour`hCost, neighbour`parent
    ensures Searching(cells, heap, open, closedSet, rank, startNode, targetNode)
    ensures neighbour.gCost == newCost && neighbour.parent == currentNode
  {
    ghost var live := heap.items[..heap.count];
    ghost var before := KeysOf(live);
    assert HeapOrdered(before) by {
      SlotsOrderedKeys(live, before);
    }
    OpenSlot(heap, open, neighbour);
    ghost var oldKey := neighbour.Key();
    neighbour.gCost := newCost;
    neighbour.hCost := GetDistance(neighbour, targetNode);
    neighbour.parent := currentNode;
    IndicesUntouched(heap, cells);
    NodesUpdated(cells, open, open, closedSet, rank, startNode, targetNode, neighbour);
    KeysLowered(heap, live, before, neighbour);
    assert Compare(neighbour.Key(), before[neighbour.heapIndex]) > 0 by {
      assert before[neighbour.heapIndex] == oldKey;
    }
    label Updated:
    RequeueOpen(heap, cells, closedSet, open, rank, neighbour, targetNode, startNode, before);
    assert neighbour.gCost == old@Updated(neighbour.gCost) && neighbour.parent == old@Updated(neighbour.parent);
  }

  /** `RaiseOpen` once the open node's new state is set: the search state holds again. */
  method RequeueOpen(heap: Heap, ghost cells: set<GridNode>, ghost closedSet: set<GridNode>, ghost open: set<GridNode>,
                     ghost rank: map<GridNode, nat>, neighbour: GridNode, ghost targetNode: GridNode,
                     ghost startNode: GridNode, ghost before: seq<Priority>)
    requires heap.Valid() && |open| == heap.count && multiset(heap.items[..heap.count]) == multiset(open)
    requires Slots(heap.items[..], open, closedSet)
    requires heap.items.Length == |cells| && InRange(cells, |cells|)
    requires SearchSets(cells, open, closedSet, rank) && NodesState(cells, open, closedSet, rank, startNode, targetNode)
    requires 0 <= neighbour.heapIndex < heap.count && heap.items[neighbour.heapIndex] == neighbour
    requires HeapOrdered(before) && |before| == heap.count
    requires KeysAre(heap.items[..heap.count], before[neighbour.heapIndex := neighbour.Key()])
    requires Compare(neighbour.Key(), before[neighbour.heapIndex]) >= 0
    modifies heap.items, cells`heapIndex
    ensures Searching(cells, heap, open, closedSet, rank, startNode, targetNode)
  {
    label Before:
    RaiseOpen(heap, cells, open, closedSet, neighbour, before);
    NodesKept@Before(cells, open, closedSet, rank, startNode, targetNode);
  }

  /** The root of the ordered open heap is at least as good as every open node. */
  lemma OpenRootIsBest(live: seq<GridNode?>, open: set<GridNode>)
    requires SlotsOrdered(live) && |live| > 0 && (forall i :: 0 <= i < |live| ==> live[i] != null)
    requires multiset(live) == multiset(open)
    ensures forall n :: n in open ==> live[0].CompareTo(n) >= 0
  {
    OrderedRootIsBest(live);
    forall n | n in open
      ensures live[0].CompareTo(n) >= 0
    {
      assert n in multiset(live);
      var i :| 0 <= i < |live| && live[i] == n;
    }
  }

  /** Taking one open node out of the live slots leaves exactly the other open nodes there. */
  lemma LiveAfterPop(now: seq<GridNode?>, live: seq<GridNode?>, open: set<GridNode>, first: GridNode)
    requires multiset(now) + multiset{first} == multiset(live) && multiset(live) == multiset(open)
    ensures first in open && multiset(now) == multiset(open - {first})
    ensures forall n :: n in live ==> n in now || n == first
  {
    assert first in multiset(live);
    var rest := open - {first};
    assert open == rest + {first} && first !in rest;
    assert multiset(open) == multiset(rest) + multiset{first};
    assert multiset(now) == multiset(live) - multiset{first};
    assert multiset(rest) == multiset(open) - multiset{first};
    forall n | n in live
      ensures n in now || n == first
    {
      assert n in multiset(live);
    }
  }

  /** The slots after a removal: live slots hold the rest of the open set, the others what they held. */
  lemma SlotsAfterPop(now: seq<GridNode?>, before: seq<GridNode?>, live: seq<GridNode?>, open: set<GridNode>,
                      closed: set<GridNode>, first: GridNode)
    requires |now| == |before| && |live| <= |now| && now[|live|..] == before[|live|..] && live == now[..|live|]
    requires multiset(live) == multiset(open - {first}) && Slots(before, open, closed)
    ensures Slots(now, open - {first}, closed + {first})
  {
    forall j | 0 <= j < |now| && now[j] != null
      ensures now[j] in open - {first} || now[j] in closed + {first}
    {
      if j < |live| {
        assert now[j] == live[j] && live[j] in multiset(live);
      } else {
        assert now[j] == now[|live|..][j - |live|];
      }
    }
  }

  /** After a removal every node's `heapIndex` is still a slot: live items name theirs, the removed one 0. */
  twostate lemma IndicesAfterPop(heap: Heap, new cells: set<GridNode>, new live: seq<GridNode?>, new first: GridNode)
    requires old(allocated(cells) && allocated(live) && allocated(first))
    requires old(InRange(cells, |cells|)) && first in cells && heap.Valid() && first.heapIndex == 0
    requires heap.count <= heap.items.Length == |cells|
    requires forall n :: n in live ==> n in heap.items[..heap.count] || n == first
    requires forall m: GridNode :: old(allocated(m)) && m !in live ==> m.heapIndex == old(m.heapIndex)
    ensures InRange(cells, |cells|)
  {
    forall n | n in cells
      ensures 0 <= n.heapIndex < |cells|
    {
      if n in heap.items[..heap.count] {
        var j :| 0 <= j < heap.count && heap.items[j] == n;
      } else if n != first {
        assert old(0 <= n.heapIndex < |cells|);
      }
    }
  }

  /** `Heap.RemoveFirst` on the open heap: the best open node leaves the open set and is counted as closed. */
  method PopOpen(heap: Heap, ghost cells: set<GridNode>, ghost open: set<GridNode>, ghost closed: set<GridNode>)
    returns (first: GridNode)
    requires Mirrors(heap, open) && Slots(heap.items[..], open, closed) && heap.count > 0
    requires heap.items.Length == |cells| && InRange(cells, |cells|) && open <= cells
    modifies heap, heap.items, cells`heapIndex
    ensures first in open && forall n :: n in open ==> first.CompareTo(n) >= 0
    ensures Mirrors(heap, open - {first}) && Slots(heap.items[..], open - {first}, closed + {first})
    ensures InRange(cells, |cells|)
  {
    ghost var slots, live := heap.items[..], heap.items[..heap.count];
    forall j | 0 <= j < heap.count
      ensures heap.items[j] in cells
    {
      assert heap.items[j] in multiset(live);
    }
    OpenRootIsBest(live, open);
    first := heap.RemoveFirst();
    LiveAfterPop(heap.items[..heap.count], live, open, first);
    SlotsAfterPop(heap.items[..], slots, heap.items[..heap.count], open, closed, first);
    IndicesAfterPop(heap, cells, live, first);
  }

  /** One node's state once the open node `c` is closed with the next rank. */
  lemma CloseNodeKeeps(n: GridNode, open: set<GridNode>, closed: set<GridNode>, rank: map<GridNode, nat>,
                       start: GridNode, target: GridNode, c: GridNode)
    requires rank.Keys == closed && (forall m :: m in closed ==> rank[m] < |closed|) && c in open && c !in closed
    requires NodeState(n, open, closed, rank, start, target) && NodeState(c, open, closed, rank, start, target)
    ensures NodeState(n, open - {c}, closed + {c}, rank[c := |closed|], start, target)
  {
    if n == c && n != start {
      assert rank[n.parent] < |closed|;
    }
  }

  /**
   * Moving the best open node to the closed set keeps the search's sets and
   * every node's state, the node taking the next rank.
   */
  lemma CloseNode(cells: set<GridNode>, open: set<GridNode>, closed: set<GridNode>, rank: map<GridNode, nat>,
                  start: GridNode, target: GridNode, c: GridNode)
    requires SearchSets(cells, open, closed, rank) && NodesState(cells, open, closed, rank, start, target) && c in open
    ensures SearchSets(cells, open - {c}, closed + {c}, rank[c := |closed|])
    ensures NodesState(cells, open - {c}, closed + {c}, rank[c := |closed|], start, target)
  {
    CloseSets(cells, open, closed, rank, c);
    forall n | n in cells
      ensures NodeState(n, open - {c}, closed + {c}, rank[c := |closed|], start, target)
    {
      CloseNodeKeeps(n, open, closed, rank, start, target, c);
    }
  }

  /** Moving an open node to the closed set, with the next rank, keeps the search's sets. */
  lemma CloseSets(cells: set<GridNode>, open: set<GridNode>, closed: set<GridNode>, rank: map<GridNode, nat>, c: GridNode)
    requires SearchSets(cells, open, closed, rank) && c in open
    ensures SearchSets(cells, open - {c}, closed + {c}, rank[c := |closed|])
  {
    var closed', rank' := closed + {c}, rank[c := |closed|];
    assert |closed'| == |closed| + 1;
    forall n | n in closed'
      ensures rank'[n] < |closed'|
    {
    }
  }

  /** The search state with the best open node closed, as the loop body leaves it before the neighbours. */
  method CloseBest(heap: Heap, ghost cells: set<GridNode>, closedSet: set<GridNode>, ghost open: set<GridNode>,
                   ghost rank: map<GridNode, nat>, ghost startNode: GridNode, ghost targetNode: GridNode)
    returns (currentNode: GridNode, ghost open': set<GridNode>, ghost rank': map<GridNode, nat>)
    requires Searching(cells, heap, open, closedSet, rank, startNode, targetNode) && heap.count > 0
    modifies heap, heap.items, cells`heapIndex
    ensures currentNode in open && currentNode !in closedSet && forall n :: n in open ==> currentNode.CompareTo(n) >= 0
    ensures open' == open - {currentNode} && rank' == rank[currentNode := |closedSet|]
    ensures Searching(cells, heap, open', closedSet + {currentNode}, rank', startNode, targetNode)
  {
    label Before:
    currentNode := PopOpen(heap, cells, open, closedSet);
    NodesKept@Before(cells, open, closedSet, rank, startNode, targetNode);
    CloseNode(cells, open, closedSet, rank, startNode, targetNode, currentNode);
    open', rank' := open - {currentNode}, rank[currentNode := |closedSet|];
  }

  /**
   * The `foreach` over the current node's neighbours: every walkable
   * 8-neighbour of the current node ends up open or closed, and no open node
   * leaves the open set.
   */
  method Expand(grid: Grid, heap: Heap, ghost cells: set<GridNode>, closedSet: set<GridNode>, ghost open: set<GridNode>,
                ghost rank: map<GridNode, nat>, currentNode: GridNode, targetNode: GridNode, ghost startNode: GridNode)
    returns (ghost open': set<GridNode>)
    requires grid.Valid() && cells == grid.cells
    requires Searching(cells, heap, open, closedSet, rank, startNode, targetNode)
    requires currentNode in closedSet && startNode in closedSet
    modifies heap, heap.items, cells`heapIndex, cells`gCost, cells`hCost, cells`parent
    ensures Searching(cells, heap, open', closedSet, rank, startNode, targetNode)
    ensures open <= open'
    ensures forall m :: m in cells && m.walkable && Adjacent(currentNode, m) ==> m in open' || m in closedSet
  {
    var neighbours := grid.GetNeighbours(currentNode);
    open' := open;
    for i := 0 to |neighbours|
      invariant Searching(cells, heap, open', closedSet, rank, startNode, targetNode)
      invariant open <= open'
      invariant Reached(neighbours[..i], open', closedSet)
    {
      ghost var openBefore := open';
      open' := Relax(heap, cells, closedSet, open', rank, currentNode, neighbours[i], targetNode, startNode);
      ReachedGrows(neighbours, i, openBefore, open', closedSet);
    }
    AllReached(cells, currentNode, neighbours, open', closedSet);
  }

  /** When every node of a list holding all of c's 8-neighbours is reached, so are c's walkable 8-neighbours. */
  lemma AllReached(cells: set<GridNode>, c: GridNode, s: seq<GridNode>, open: set<GridNode>, closed: set<GridNode>)
    requires forall m :: m in cells && Adjacent(c, m) ==> m in s
    requires Reached(s[..|s|], open, closed)
    ensures forall m :: m in cells && m.walkable && Adjacent(c, m) ==> m in open || m in closed
  {
    assert s[..|s|] == s;
  }

  /** Every walkable node of `s` is open or closed. */
  ghost predicate Reached(s: seq<GridNode>, open: set<GridNode>, closed: set<GridNode>)
  {
    forall k :: 0 <= k < |s| && s[k].walkable ==> s[k] in open || s[k] in closed
  }

  /** Relaxing the next neighbour extends what is reached, the open set only growing. */
  lemma ReachedGrows(s: seq<GridNode>, i: int, open: set<GridNode>, open': set<GridNode>, closed: set<GridNode>)
    requires 0 <= i < |s| && Reached(s[..i], open, closed) && open <= open'
    requires s[i].walkable ==> s[i] in open' || s[i] in closed
    ensures Reached(s[..i + 1], open', closed)
  {
    var t := s[..i + 1];
    forall k | 0 <= k < |t| && t[k].walkable
      ensures t[k] in open' || t[k] in closed
    {
      if k < i {
        assert t[k] == s[..i][k];
      }
    }
  }

  /** Every walkable 8-neighbour of a closed node is open or closed. */
  ghost predicate Frontier(cells: set<GridNode>, open: set<GridNode>, closed: set<GridNode>)
  {
    forall c, m :: c in closed && m in cells && m.walkable && Adjacent(c, m) ==> m in open || m in closed
  }

  /** Closing a node and opening its walkable neighbours keeps the frontier. */
  lemma FrontierStep(cells: set<GridNode>, open: set<GridNode>, open': set<GridNode>, closed: set<GridNode>, c: GridNode)
    requires Frontier(cells, open, closed) && open - {c} <= open'
    requires forall m :: m in cells && m.walkable && Adjacent(c, m) ==> m in open' || m in closed + {c}
    ensures Frontier(cells, open', closed + {c})
  {
  }

  /** The closed nodes form a tree below the start once the search has closed the start. */
  lemma SearchIsTree(cells: set<GridNode>, open: set<GridNode>, closed: set<GridNode>, rank: map<GridNode, nat>,
                     start: GridNode, target: GridNode)
    requires SearchSets(cells, open, closed, rank) && NodesState(cells, open, closed, rank, start, target)
    ensures Tree(cells, closed, rank, start)
  {
    forall n | n in closed
      ensures n.walkable && (n != start ==> n.parent in closed && Adjacent(n.parent, n) && rank[n.parent] < rank[n])
    {
      assert NodeState(n, open, closed, rank, start, target);
    }
  }

  /** Along a route that starts in a set closed under walkable adjacency, every node is in the set. */
  lemma {:induction false} StaysInside(cells: set<GridNode>, closed: set<GridNode>, w: seq<GridNode>, a: GridNode,
                                       b: GridNode, i: int)
    requires Connects(cells, w, a, b) && a in closed && Frontier(cells, {}, closed) && 0 <= i < |w|
    ensures w[i] in closed
    decreases i
  {
    if i > 0 {
      StaysInside(cells, closed, w, a, b, i - 1);
      assert Adjacent(w[i - 1], w[i]);
    }
  }

  /**
   * When the open set runs empty, the closed set is closed under walkable
   * adjacency, so no route leads from the start, which is closed, to the
   * target, which is not.
   */
  lemma NoRoute(cells: set<GridNode>, closed: set<GridNode>, start: GridNode, target: GridNode)
    requires Frontier(cells, {}, closed) && start in closed && target !in closed
    ensures forall w :: !Connects(cells, w, start, target)
  {
    forall w | Connects(cells, w, start, target)
      ensures false
    {
      StaysInside(cells, closed, w, start, target, |w| - 1);
    }
  }

  /** The first half of a turn of the search loop: the best open node is closed. */
  method CloseStep(grid: Grid, openSet: Heap, ghost cells: set<GridNode>, closedSet: set<GridNode>,
                   ghost open: set<GridNode>, ghost rank: map<GridNode, nat>, ghost startNode: GridNode,
                   ghost targetNode: GridNode)
    returns (currentNode: GridNode, ghost open': set<GridNode>, ghost rank': map<GridNode, nat>)
    requires grid.Valid() && cells == grid.cells
    requires Searching(cells, openSet, open, closedSet, rank, startNode, targetNode) && openSet.count > 0
    modifies openSet, openSet.items, cells`heapIndex
    ensures grid.Valid() && grid.cells == cells && currentNode in open && currentNode !in closedSet
    ensures open' == open - {currentNode}
    ensures Searching(cells, openSet, open', closedSet + {currentNode}, rank', startNode, targetNode)
  {
    label Closing:
    currentNode, open', rank' := CloseBest(openSet, cells, closedSet, open, rank, startNode, targetNode);
    GridKept@Closing(grid);
  }

  /**
   * The second half of a turn of the search loop: the neighbours of the node
   * just closed are relaxed, which keeps every walkable 8-neighbour of a
   * closed node open or closed.
   */
  method ExpandStep(grid: Grid, openSet: Heap, ghost cells: set<GridNode>, closedSet: set<GridNode>,
                    ghost open: set<GridNode>, ghost rank: map<GridNode, nat>, currentNode: GridNode,
                    targetNode: GridNode, ghost startNode: GridNode,
                    ghost openBefore: set<GridNode>, ghost closedBefore: set<GridNode>)
    returns (ghost open': set<GridNode>)
    requires grid.Valid() && cells == grid.cells
    requires Searching(cells, openSet, open, closedSet, rank, startNode, targetNode)
    requires startNode in closedSet && closedSet == closedBefore + {currentNode}
    requires Frontier(cells, openBefore, closedBefore) && open == openBefore - {currentNode}
    modifies openSet, openSet.items, cells`heapIndex, cells`gCost, cells`hCost, cells`parent
    ensures grid.Valid() && grid.cells == cells
    ensures Searching(cells, openSet, open', closedSet, rank, startNode, targetNode)
    ensures Frontier(cells, open', closedSet)
  {
    label Expanding:
    open' := Expand(grid, openSet, cells, closedSet, open, rank, currentNode, targetNode, startNode);
    GridKept@Expanding(grid);
    FrontierStep(cells, openBefore, open', closedBefore, currentNode);
  }

  /** The grid's layout does not depend on the nodes' search fields. */
  twostate lemma GridKept(grid: Grid)
    requires old(grid.Valid()) && unchanged(grid) && old(grid.nodes) != null && unchanged(old(grid.nodes))
    ensures grid.Valid()
  {
  }

  /** A fresh search: only the start is open, with the open heap holding just it. */
  lemma SearchStarts(cells: set<GridNode>, heap: Heap, start: GridNode, target: GridNode)
    requires Mirrors(heap, {start}) && Slots(heap.items[..], {start}, {}) && heap.items.Length == |cells|
    requires InRange(cells, |cells|) && start in cells && start.walkable
    ensures Searching(cells, heap, {start}, {}, map[], start, target)
  {
    forall n | n in cells
      ensures NodeState(n, {start}, {}, map[], start, target)
    {
    }
  }

  /** The start of `FindPath`'s search: an open heap as large as the grid, holding just the start. */
  method StartSearch(grid: Grid, startNode: GridNode, targetNode: GridNode) returns (openSet: Heap)
    requires grid.Valid() && startNode in grid.cells && startNode.walkable && InRange(grid.cells, |grid.cells|)
    modifies grid.cells`heapIndex
    ensures fresh(openSet) && fresh(openSet.items)
    ensures Searching(grid.cells, openSet, {startNode}, {}, map[], startNode, targetNode)
  {
    openSet := new Heap(grid.MaxSize());
    PushOpen(openSet, grid.cells, {}, {}, startNode);
    SearchStarts(grid.cells, openSet, startNode, targetNode);
  }

  /**
   * The search loop of `FindPath` (AStar.cs), run to its end: the start is
   * opened, then the best open node is closed and its neighbours relaxed
   * until the target is closed or nothing is open. Success means the closed
   * nodes hang below the start in a tree that holds the target; failure
   * means no route over walkable 8-neighbours joins start and target.
   */
  method Search(grid: Grid, startNode: GridNode, targetNode: GridNode)
    returns (pathSuccess: bool, ghost closed: set<GridNode>, ghost rank: map<GridNode, nat>)
    requires grid.Valid() && startNode in grid.cells && targetNode in grid.cells
    requires startNode.walkable && targetNode.walkable && InRange(grid.cells, |grid.cells|)
    modifies grid.cells`heapIndex, grid.cells`gCost, grid.cells`hCost, grid.cells`parent
    ensures InRange(grid.cells, |grid.cells|)
    ensures pathSuccess ==> targetNode in closed && Tree(grid.cells, closed, rank, startNode)
    ensures !pathSuccess ==> forall w :: !Connects(grid.cells, w, startNode, targetNode)
  {
    ghost var cells := grid.cells;
    var openSet := StartSearch(grid, startNode, targetNode);
    var closedSet: set<GridNode> := {};
    ghost var open: set<GridNode> := {startNode};
    rank := map[];
    pathSuccess := false;
    while openSet.count > 0
      invariant grid.Valid() && cells == grid.cells
      invariant Searching(cells, openSet, open, closedSet, rank, startNode, targetNode)
      invariant closedSet == {} ==> open == {startNode}
      invariant closedSet != {} ==> startNode in closedSet
      invariant targetNode !in closedSet && !pathSuccess
      invariant Frontier(cells, open, closedSet)
      decreases cells - closedSet
    {
      ghost var openBefore, closedBefore := open, closedSet;
      var currentNode: GridNode;
      currentNode, open, rank := CloseStep(grid, openSet, cells, closedSet, open, rank, startNode, targetNode);
      closedSet := closedSet + {currentNode};
      if currentNode == targetNode {
        pathSuccess := true;
        break;
      }
      open := ExpandStep(grid, openSet, cells, closedSet, open, rank, currentNode, targetNode, startNode,
                         openBefore, closedBefore);
    }
    SearchEnds(cells, openSet, open, closedSet, rank, startNode, targetNode, pathSuccess);
    closed := closedSet;
  }

  /** What the search has shown when its loop ends: a tree holding the target, or that no route exists. */
  lemma SearchEnds(cells: set<GridNode>, heap: Heap, open: set<GridNode>, closed: set<GridNode>,
                   rank: map<GridNode, nat>, start: GridNode, target: GridNode, success: bool)
    requires Searching(cells, heap, open, closed, rank, start, target)
    requires closed == {} ==> open == {start}
    requires closed != {} ==> start in closed
    requires success ==> target in closed
    requires !success ==> heap.count == 0 && target !in closed && Frontier(cells, open, closed)
    ensures InRange(cells, |cells|)
    ensures success ==> Tree(cells, closed, rank, start)
    ensures !success ==> forall w :: !Connects(cells, w, start, target)
  {
    if success {
      SearchIsTree(cells, open, closed, rank, start, target);
    } else {
      assert |open| == 0;
      NoRoute(cells, closed, start, target);
    }
  }

  /** No route joins two nodes when either of them is an obstacle. */
  lemma NoRouteFromBlocked(cells: set<GridNode>, a: GridNode, b: GridNode)
    requires !a.walkable || !b.walkable
    ensures forall w :: !Connects(cells, w, a, b)
  {
    ConnectsWalkableEnds(cells, a, b);
  }

  /** Both ends of a route are walkable. */
  lemma ConnectsWalkableEnds(cells: set<GridNode>, a: GridNode, b: GridNode)
    ensures forall w :: Connects(cells, w, a, b) ==> a.walkable && b.walkable
  {
    forall w: seq<GridNode> | Connects(cells, w, a, b)
      ensures a.walkable && b.walkable
    {
      assert w[0] == a && w[|w| - 1] == b;
    }
  }

  /** A grid just built has every `heapIndex` at 0, inside any heap as large as the grid. */
  lemma FreshGridInRange(grid: Grid)
    requires grid.Valid() && grid.Unsearched() && grid.sizeX > 0 && grid.sizeY > 0
    ensures InRange(grid.cells, |grid.cells|)
  {
    assert |grid.cells| == grid.sizeX * grid.sizeY;
  }

  /**
   * `FindPath` (AStar.cs) up to its result: the nodes under the two world
   * positions are looked up, the start is made its own parent, and when both
   * are walkable the search runs. On success the target is closed in a tree
   * of parent links below the start; on failure no route exists.
   */
  method LocateAndSearch(grid: Grid, startX: int, startZ: int, targetX: int, targetZ: int)
    returns (pathSuccess: bool, startNode: GridNode, targetNode: GridNode,
             ghost closed: set<GridNode>, ghost rank: map<GridNode, nat>)
    requires grid.Valid() && grid.sizeX > 0 && grid.sizeY > 0 && grid.worldSizeX > 0 && grid.worldSizeY > 0
    requires InRange(grid.cells, |grid.cells|)
    modifies grid.cells`heapIndex, grid.cells`gCost, grid.cells`hCost, grid.cells`parent
    ensures InRange(grid.cells, |grid.cells|)
    ensures startNode in grid.cells && targetNode in grid.cells
    ensures CellOf(startNode) == Cell(WorldToIndex(startX, grid.worldSizeX, grid.sizeX), WorldToIndex(startZ, grid.worldSizeY, grid.sizeY))
    ensures CellOf(targetNode) == Cell(WorldToIndex(targetX, grid.worldSizeX, grid.sizeX), WorldToIndex(targetZ, grid.worldSizeY, grid.sizeY))
    ensures pathSuccess ==> targetNode in closed && Tree(grid.cells, closed, rank, startNode)
    ensures !pathSuccess ==> forall w :: !Connects(grid.cells, w, startNode, targetNode)
  {
    pathSuccess := false;
    startNode := grid.NodeFromWorldPoint(startX, startZ);
    targetNode := grid.NodeFromWorldPoint(targetX, targetZ);
    startNode.parent := startNode;
    closed, rank := {}, map[];
    if startNode.walkable && targetNode.walkable {
      pathSuccess, closed, rank := Search(grid, startNode, targetNode);
    } else {
      NoRouteFromBlocked(grid.cells, startNode, targetNode);
    }
  }

  /**
   * `FindPath` (AStar.cs) run to its end, its result handed back instead of
   * reported to the request manager. On success the waypoints are those
   * `RetracePath` gives for the route the parent links record: cells strictly
   * between start and target, none when they coincide, and not enough to
   * walk to a target whose cell the route meets only at its end. On failure
   * there are none and no route exists.
   */
  method FindPath(grid: Grid, startX: int, startZ: int, targetX: int, targetZ: int)
    returns (waypoints: seq<Cell>, pathSuccess: bool, ghost startNode: GridNode, ghost targetNode: GridNode,
             ghost route: seq<GridNode>)
    requires grid.Valid() && grid.sizeX > 0 && grid.sizeY > 0 && grid.worldSizeX > 0 && grid.worldSizeY > 0
    requires InRange(grid.cells, |grid.cells|)
    modifies grid.cells`heapIndex, grid.cells`gCost, grid.cells`hCost, grid.cells`parent
    ensures InRange(grid.cells, |grid.cells|)
    ensures startNode in grid.cells && targetNode in grid.cells
    ensures CellOf(startNode) == Cell(WorldToIndex(startX, grid.worldSizeX, grid.sizeX), WorldToIndex(startZ, grid.worldSizeY, grid.sizeY))
    ensures CellOf(targetNode) == Cell(WorldToIndex(targetX, grid.worldSizeX, grid.sizeX), WorldToIndex(targetZ, grid.worldSizeY, grid.sizeY))
    ensures pathSuccess ==> Connects(grid.cells, route, startNode, targetNode) && waypoints == EarlyTurns(CellsOf(route)[1..])
    ensures pathSuccess ==> forall i :: 0 < i < |route| ==> route[i].parent == route[i - 1]
    ensures pathSuccess ==> forall c :: c in waypoints ==> c in CellsOf(route)[1..|route| - 1]
    ensures pathSuccess && startNode == targetNode ==> waypoints == []
    ensures pathSuccess && startNode != targetNode && CellOf(targetNode) !in CellsOf(route)[..|route| - 1] ==>
              Rewalk(CellOf(startNode), waypoints) != CellsOf(route)[1..]
    ensures !pathSuccess ==> waypoints == [] && forall w :: !Connects(grid.cells, w, startNode, targetNode)
  {
    waypoints, route := [], [];
    var start, target;
    ghost var closed, rank;
    pathSuccess, start, target, closed, rank := LocateAndSearch(grid, startX, startZ, targetX, targetZ);
    startNode, targetNode := start, target;
    if pathSuccess {
      waypoints, route := RetracePath(start, target, grid.cells, closed, rank);
    }
  }

  /**
   * `FindPath` with the corrected `RetracePath`: on success the waypoints are
   * the turns of the route the parent links record, ending at the target's
   * cell; on failure there are none and no route exists.
   */
  method FindPathCorrected(grid: Grid, startX: int, startZ: int, targetX: int, targetZ: int)
    returns (waypoints: seq<Cell>, pathSuccess: bool, ghost startNode: GridNode, ghost targetNode: GridNode,
             ghost route: seq<GridNode>)
    requires grid.Valid() && grid.sizeX > 0 && grid.sizeY > 0 && grid.worldSizeX > 0 && grid.worldSizeY > 0
    requires InRange(grid.cells, |grid.cells|)
    modifies grid.cells`heapIndex, grid.cells`gCost, grid.cells`hCost, grid.cells`parent
    ensures InRange(grid.cells, |grid.cells|)
    ensures startNode in grid.cells && targetNode in grid.cells
    ensures CellOf(startNode) == Cell(WorldToIndex(startX, grid.worldSizeX, grid.sizeX), WorldToIndex(startZ, grid.worldSizeY, grid.sizeY))
    ensures CellOf(targetNode) == Cell(WorldToIndex(targetX, grid.worldSizeX, grid.sizeX), WorldToIndex(targetZ, grid.worldSizeY, grid.sizeY))
    ensures pathSuccess ==> Connects(grid.cells, route, startNode, targetNode) && waypoints == Turns(CellsOf(route))
    ensures pathSuccess ==> forall i :: 0 < i < |route| ==> route[i].parent == route[i - 1]
    ensures pathSuccess && startNode != targetNode ==> waypoints != [] && waypoints[|waypoints| - 1] == CellOf(targetNode)
    ensures !pathSuccess ==> waypoints == [] && forall w :: !Connects(grid.cells, w, startNode, targetNode)
  {
    waypoints, route := [], [];
    var start, target;
    ghost var closed, rank;
    pathSuccess, start, target, closed, rank := LocateAndSearch(grid, startX, startZ, targetX, targetZ);
    startNode, targetNode := start, target;
    if pathSuccess {
      waypoints, route := RetracePathCorrected(start, target, grid.cells, closed, rank);
    }
  }

  /**
   * The corrected waypoints of a found route lead back along it: walked straight from
   * the start through each waypoint in turn they give every cell of the route
   * after the start, and the last waypoint is the target's cell.
   */
  lemma WaypointsRetraceRoute(cells: set<GridNode>, route: seq<GridNode>, start: GridNode, target: GridNode)
    requires Connects(cells, route, start, target)
    ensures Rewalk(CellOf(start), Turns(CellsOf(route))) == CellsOf(route)[1..]
    ensures |route| >= 2 ==> Turns(CellsOf(route)) != [] && Turns(CellsOf(route))[|Turns(CellsOf(route))| - 1] == CellOf(target)
  {
    ConnectsIsWalk(cells, route, start, target);
    RewalkTurns(CellsOf(route));
    if |route| >= 2 {
      TurnsEndAtTarget(CellsOf(route));
    }
  }
}
