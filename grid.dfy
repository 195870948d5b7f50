/**
 * The world discretised into a rectangle of nodes: the per-cell movement
 * penalties and their box blur, the 8-neighbourhood of a node, and the lookup
 * of the node under a world position.
 */
module Grids {
  import opened Numerics
  import opened GridNodes

  datatype Option<T> = None | Some(value: T)

  /**
   * What the downward probe over a cell finds: the penalty the terrain table
   * gives the layer it hits, and 0 when it hits nothing or a layer the table lacks.
   */
  function TerrainPenalty(hitLayer: Option<int>, walkableRegions: map<int, int>): int
  {
    match hitLayer
    case None => 0
    case Some(layer) => if layer in walkableRegions then walkableRegions[layer] else 0
  }

  /** A cell's penalty before blurring: its terrain penalty, plus the obstacle penalty when it is blocked. */
  function RawPenalty(walkable: bool, hitLayer: Option<int>, walkableRegions: map<int, int>, obstacleProximityPenalty: int): int
  {
    TerrainPenalty(hitLayer, walkableRegions) + (if walkable then 0 else obstacleProximityPenalty)
  }

  /** `t` is indexed [x][y] and has sizeX columns of sizeY cells. */
  ghost predicate Table<T>(t: seq<seq<T>>, sizeX: int, sizeY: int)
  {
    |t| == sizeX && forall x :: 0 <= x < sizeX ==> |t[x]| == sizeY
  }

  /** The row y of a table: its cells from x = 0 upwards. */
  ghost function Row(t: seq<seq<int>>, y: int): (r: seq<int>)
    requires |t| > 0 && Table(t, |t|, |t[0]|) && 0 <= y < |t[0]|
    ensures |r| == |t| && forall x :: 0 <= x < |t| ==> r[x] == t[x][y]
  {
    seq(|t|, x requires 0 <= x < |t| => t[x][y])
  }

  /**
   * The sum of f over the indices lo .. hi - 1, each index clamped into f's
   * range: a blur window whose edge cells are repeated beyond the border.
   */
  ghost function WindowSum(f: seq<int>, lo: int, hi: int): int
    requires |f| > 0
    decreases hi - lo
  {
    if hi <= lo then 0 else WindowSum(f, lo, hi - 1) + f[Clamp(hi - 1, 0, |f| - 1)]
  }

  lemma {:induction false} WindowDropFirst(f: seq<int>, lo: int, hi: int)
    requires |f| > 0 && lo < hi
    ensures WindowSum(f, lo, hi) == f[Clamp(lo, 0, |f| - 1)] + WindowSum(f, lo + 1, hi)
    decreases hi - lo
  {
    if lo + 1 < hi {
      WindowDropFirst(f, lo, hi - 1);
    }
  }

  /** Moving a window one step: drop the cell that leaves it, add the one that enters. */
  lemma WindowSlide(f: seq<int>, lo: int, hi: int)
    requires |f| > 0 && lo <= hi
    ensures WindowSum(f, lo + 1, hi + 1) == WindowSum(f, lo, hi) - f[Clamp(lo, 0, |f| - 1)] + f[Clamp(hi, 0, |f| - 1)]
  {
    WindowDropFirst(f, lo, hi + 1);
  }

  /** The horizontal pass at (x, y): the clamped window of width 2k + 1 around x in row y. */
  ghost function HorizontalSum(raw: seq<seq<int>>, k: int, x: int, y: int): int
    requires |raw| > 0 && Table(raw, |raw|, |raw[0]|) && 0 <= y < |raw[0]|
  {
    WindowSum(Row(raw, y), x - k, x + k + 1)
  }

  /** Column x of the horizontal pass. */
  ghost function HorizontalColumn(raw: seq<seq<int>>, k: int, x: int): (c: seq<int>)
    requires |raw| > 0 && Table(raw, |raw|, |raw[0]|)
    ensures |c| == |raw[0]| && forall y :: 0 <= y < |c| ==> c[y] == HorizontalSum(raw, k, x, y)
  {
    seq(|raw[0]|, y requires 0 <= y < |raw[0]| => HorizontalSum(raw, k, x, y))
  }

  /**
   * The vertical pass at row y of a column of horizontal sums, divided by the
   * box's area and rounded: the clamped window of height 2k + 1 around y.
   */
  ghost function Smoothed(column: seq<int>, k: int, y: int): int
    requires k >= 0 && |column| > 0
  {
    RoundHalfEven(WindowSum(column, y - k, y + k + 1), (2 * k + 1) * (2 * k + 1))
  }

  /** The blurred penalty of a cell: the (2k + 1) x (2k + 1) box sum around it, divided by the box's area and rounded. */
  ghost function Blurred(raw: seq<seq<int>>, k: int, x: int, y: int): int
    requires k >= 0 && |raw| > 0 && |raw[0]| > 0 && Table(raw, |raw|, |raw[0]|)
  {
    Smoothed(HorizontalColumn(raw, k, x), k, y)
  }

  /** The raw penalty of every cell, from the probe results, indexed [x][y]. */
  ghost function RawPenalties(walkable: seq<seq<bool>>, hitLayer: seq<seq<Option<int>>>,
                              walkableRegions: map<int, int>, obstacleProximityPenalty: int): (raw: seq<seq<int>>)
    requires |walkable| > 0 && Table(walkable, |walkable|, |walkable[0]|) && Table(hitLayer, |walkable|, |walkable[0]|)
    ensures Table(raw, |walkable|, |walkable[0]|)
    ensures forall x, y :: 0 <= x < |walkable| && 0 <= y < |walkable[0]| ==>
      raw[x][y] == RawPenalty(walkable[x][y], hitLayer[x][y], walkableRegions, obstacleProximityPenalty)
  {
    seq(|walkable|, x requires 0 <= x < |walkable| =>
      seq(|walkable[0]|, y requires 0 <= y < |walkable[0]| =>
        RawPenalty(walkable[x][y], hitLayer[x][y], walkableRegions, obstacleProximityPenalty)))
  }

  /** Two nodes are 8-neighbours: different cells whose coordinates differ by at most one on each axis. */
  predicate Adjacent(a: GridNode, b: GridNode)
  {
    (a.gridX, a.gridY) != (b.gridX, b.gridY) && Abs(a.gridX - b.gridX) <= 1 && Abs(a.gridY - b.gridY) <= 1
  }

  /**
   * The index part of `NodeFromWorldPoint` on one axis: the position's fraction
   * (w + worldSize / 2) / worldSize of the extent, clamped to [0, 1], scaled by
   * size - 1 and rounded. The fraction is kept exact as (2w + worldSize) / (2 worldSize).
   */
  function WorldToIndex(w: int, worldSize: int, size: int): (i: int)
    requires worldSize > 0 && size > 0
    ensures 0 <= i < size
  {
    var fraction := Clamp(2 * w + worldSize, 0, 2 * worldSize);
    RoundedInRange((size - 1) * fraction, 2 * worldSize, size - 1);
    RoundHalfEven((size - 1) * fraction, 2 * worldSize)
  }

  lemma MulMonotone(a: int, b: int, c: int)
    requires a <= b && c >= 0
    ensures a * c <= b * c
  {
    assert b * c - a * c == (b - a) * c;
  }

  /** Integers that differ by at least one (two) have multiples by c that differ by at least c (2c). */
  lemma MulGap(a: int, b: int, c: int)
    requires c >= 0
    ensures a < b ==> a * c + c <= b * c
    ensures a + 1 < b ==> a * c + 2 * c <= b * c
  {
    assert b * c - a * c == (b - a) * c;
    if a < b {
      MulMonotone(1, b - a, c);
    }
    if a + 1 < b {
      MulMonotone(2, b - a, c);
    }
  }

  /** Rounding n / d stays in [0, m] when n does in [0, m * d]. */
  lemma RoundedInRange(n: int, d: int, m: nat)
    requires d > 0 && 0 <= n
    requires n <= m * d
    ensures 0 <= RoundHalfEven(n, d) <= m
  {
    var r := RoundHalfEven(n, d);
    MulGap(r, 0, d);
    MulGap(m, r, d);
  }

  /** An exact multiple rounds to its own quotient. */
  lemma RoundExact(m: int, d: int)
    requires d > 0
    ensures RoundHalfEven(m * d, d) == m
  {
    var r := RoundHalfEven(m * d, d);
    MulGap(r, m, d);
    MulGap(m, r, d);
  }

  /** Rounding n / d never decreases as n grows. */
  lemma RoundMonotone(n1: int, n2: int, d: int)
    requires d > 0 && n1 <= n2
    ensures RoundHalfEven(n1, d) <= RoundHalfEven(n2, d)
  {
    // Were the first rounding above the second, both quotients would sit exactly
    // half a step from their roundings and the tie rule would make both even.
    MulGap(RoundHalfEven(n2, d), RoundHalfEven(n1, d), d);
  }

  /** A position further along an axis never maps to a lower index. */
  lemma WorldToIndexMonotone(w1: int, w2: int, worldSize: int, size: int)
    requires worldSize > 0 && size > 0 && w1 <= w2
    ensures WorldToIndex(w1, worldSize, size) <= WorldToIndex(w2, worldSize, size)
  {
    var f1 := Clamp(2 * w1 + worldSize, 0, 2 * worldSize);
    var f2 := Clamp(2 * w2 + worldSize, 0, 2 * worldSize);
    MulMonotone(f1, f2, size - 1);
    assert (size - 1) * f1 <= (size - 1) * f2;
    RoundMonotone((size - 1) * f1, (size - 1) * f2, 2 * worldSize);
  }

  /** Positions at or beyond an edge of the extent map to the first or the last cell. */
  lemma WorldToIndexAtEdges(w: int, worldSize: int, size: int)
    requires worldSize > 0 && size > 0
    ensures 2 * w <= -worldSize ==> WorldToIndex(w, worldSize, size) == 0
    ensures 2 * w >= worldSize ==> WorldToIndex(w, worldSize, size) == size - 1
  {
    RoundExact(0, 2 * worldSize);
    RoundExact(size - 1, 2 * worldSize);
  }

  /** A node as `CreateGrid` makes it: the given walkability and penalty, and no search state yet. */
  ghost predicate Initial(n: GridNode, walkable: bool, penalty: int)
    reads n
  {
    n.walkable == walkable && n.movementPenalty == penalty &&
    n.gCost == 0 && n.hCost == 0 && n.parent == null && n.heapIndex == 0
  }

  /** Offset (dx, dy) is visited before offset (x, y) when x runs in the outer loop and y in the inner one. */
  predicate OffsetBefore(dx: int, dy: int, x: int, y: int)
  {
    dx < x || (dx == x && dy < y)
  }

  /** The C# `int.MaxValue` and `int.MinValue`, the initial penalty bounds. */
  const IntMax: int := 0x7fff_ffff
  const IntMin: int := -0x8000_0000

  class Grid {
    const sizeX: nat
    const sizeY: nat
    const worldSizeX: int
    const worldSizeY: int
    const obstacleProximityPenalty: int
    const walkableRegions: map<int, int>
    var nodes: array2?<GridNode?>
    var penaltyMin: int
    var penaltyMax: int
    /** The nodes of the grid, one per cell. */
    ghost var cells: set<GridNode>

    /**
     * The nodes of the cells that come before column x, row y (column by column)
     * are in place: each in its own cell, each cell's node in `cells`, and nothing else in `cells`.
     */
    ghost predicate BuiltUpTo(x: int, y: int)
      reads this`nodes, this`cells, nodes
    {
      nodes != null && nodes.Length0 == sizeX && nodes.Length1 == sizeY &&
      Placed(x, y) && Owned(x, y) && |cells| == x * sizeY + y
    }

    /** The cells before (x, y) hold their own nodes, which are in `cells`. */
    ghost predicate Placed(x: int, y: int)
      reads this`nodes, this`cells, nodes
      requires nodes != null
    {
      forall i, j :: 0 <= i < nodes.Length0 && 0 <= j < nodes.Length1 && (i < x || (i == x && j < y)) ==>
        nodes[i, j] != null && nodes[i, j] in cells && nodes[i, j].gridX == i && nodes[i, j].gridY == j
    }

    /** Every node in `cells` sits in its own cell, which comes before (x, y). */
    ghost predicate Owned(x: int, y: int)
      reads this`nodes, this`cells, nodes
      requires nodes != null
    {
      forall n :: n in cells ==>
        0 <= n.gridX < nodes.Length0 && 0 <= n.gridY < nodes.Length1 && (n.gridX < x || (n.gridX == x && n.gridY < y)) &&
        nodes[n.gridX, n.gridY] == n
    }

    /** Every cell holds its own node, and `cells` are exactly those nodes. */
    ghost predicate Valid()
      reads this`nodes, this`cells, nodes
    {
      BuiltUpTo(sizeX, 0)
    }

    /**
     * The part of `Awake` the model keeps: the sizes and the terrain table are
     * given; there are no nodes until `CreateGrid`.
     */
    constructor (sizeX: nat, sizeY: nat, worldSizeX: int, worldSizeY: int,
                 obstacleProximityPenalty: int, walkableRegions: map<int, int>)
      ensures this.sizeX == sizeX && this.sizeY == sizeY
      ensures this.worldSizeX == worldSizeX && this.worldSizeY == worldSizeY
      ensures this.obstacleProximityPenalty == obstacleProximityPenalty && this.walkableRegions == walkableRegions
      ensures nodes == null && cells == {}
      ensures penaltyMin == IntMax && penaltyMax == IntMin
    {
      this.sizeX, this.sizeY := sizeX, sizeY;
      this.worldSizeX, this.worldSizeY := worldSizeX, worldSizeY;
      this.obstacleProximityPenalty := obstacleProximityPenalty;
      this.walkableRegions := walkableRegions;
      nodes := null;
      penaltyMin, penaltyMax := IntMax, IntMin;
      cells := {};
    }

    /** The number of cells, which bounds how many nodes the open set can ever hold. */
    function MaxSize(): (m: int)
      reads this`nodes, this`cells, nodes
      ensures Valid() ==> m == |cells|
    {
      sizeX * sizeY
    }
  
    /** A node as `CreateGrid` makes it from the probe results for its cell. */
    ghost predicate MadeFrom(n: GridNode, walkable: seq<seq<bool>>, hitLayer: seq<seq<Option<int>>>)
      reads n
    {
      0 <= n.gridX < |walkable| && 0 <= n.gridY < |walkable[n.gridX]| &&
      0 <= n.gridX < |hitLayer| && 0 <= n.gridY < |hitLayer[n.gridX]| &&
      Initial(n, walkable[n.gridX][n.gridY],
        RawPenalty(walkable[n.gridX][n.gridY], hitLayer[n.gridX][n.gridY], walkableRegions, obstacleProximityPenalty))
    }

    /** Every node's movement penalty is the table's entry for its cell. */
    ghost predicate PenaltiesAre(penalty: seq<seq<int>>)
      reads this`cells, cells
    {
      forall n :: n in cells && 0 <= n.gridX < |penalty| && 0 <= n.gridY < |penalty[n.gridX]| ==>
        n.movementPenalty == penalty[n.gridX][n.gridY]
    }

    /** No node has been searched yet: the search fields hold their C# defaults. */
    ghost predicate Unsearched()
      reads this`cells, cells`gCost, cells`hCost, cells`parent, cells`heapIndex
    {
      forall n :: n in cells ==> n.gCost == 0 && n.hCost == 0 && n.parent == null && n.heapIndex == 0
    }

    /**
     * Builds a fresh node for every cell, with the walkability the sphere probe
     * reports and the penalty the terrain probe and the obstacle rule give it,
     * then blurs the penalties with a 7 x 7 box (blur size 3).
     */
    method CreateGrid(walkable: seq<seq<bool>>, hitLayer: seq<seq<Option<int>>>)
      requires sizeX > 3 && sizeY > 3
      requires Table(walkable, sizeX, sizeY) && Table(hitLayer, sizeX, sizeY)
      modifies this
      ensures Valid() && fresh(nodes) && Unsearched()
      ensures forall n :: n in cells ==> fresh(n) && n.walkable == walkable[n.gridX][n.gridY]
      ensures forall n :: n in cells ==>
        n.movementPenalty == Blurred(RawPenalties(walkable, hitLayer, walkableRegions, obstacleProximityPenalty), 3, n.gridX, n.gridY)
      ensures penaltyMin <= old(penaltyMin) && penaltyMax >= old(penaltyMax)
      ensures forall x, y :: 0 <= x < sizeX && 1 <= y < sizeY ==>
        penaltyMin <= Blurred(RawPenalties(walkable, hitLayer, walkableRegions, obstacleProximityPenalty), 3, x, y) <= penaltyMax
      ensures penaltyMin == old(penaltyMin) ||
              exists x, y :: 0 <= x < sizeX && 1 <= y < sizeY &&
                penaltyMin == Blurred(RawPenalties(walkable, hitLayer, walkableRegions, obstacleProximityPenalty), 3, x, y)
      ensures penaltyMax == old(penaltyMax) ||
              exists x, y :: 0 <= x < sizeX && 1 <= y < sizeY &&
                penaltyMax == Blurred(RawPenalties(walkable, hitLayer, walkableRegions, obstacleProximityPenalty), 3, x, y)
    {
      PlaceNodes(walkable, hitLayer);
      ghost var raw := RawPenalties(walkable, hitLayer, walkableRegions, obstacleProximityPenalty);
      BlurPenaltyMap(3, raw);
    }

    /** The node-building loops of `CreateGrid`, before the blur. */
    method PlaceNodes(walkable: seq<seq<bool>>, hitLayer: seq<seq<Option<int>>>)
      requires Table(walkable, sizeX, sizeY) && Table(hitLayer, sizeX, sizeY)
      modifies this`nodes, this`cells
      ensures Valid() && fresh(nodes)
      ensures forall n :: n in cells ==> fresh(n) && MadeFrom(n, walkable, hitLayer)
    {
      nodes := new GridNode?[sizeX, sizeY]((_, _) => null);
      cells := {};
      for x := 0 to sizeX
        modifies this`cells, nodes
        invariant BuiltUpTo(x, 0) && fresh(nodes)
        invariant forall n :: n in cells ==> fresh(n) && MadeFrom(n, walkable, hitLayer)
      {
        CreateColumn(x, walkable, hitLayer);
      }
    }

    /** The inner loop of `CreateGrid`: the nodes of column x, from row 0 upwards. */
    method CreateColumn(x: int, walkable: seq<seq<bool>>, hitLayer: seq<seq<Option<int>>>)
      requires 0 <= x < sizeX && BuiltUpTo(x, 0)
      requires Table(walkable, sizeX, sizeY) && Table(hitLayer, sizeX, sizeY)
      modifies this`cells, nodes
      ensures BuiltUpTo(x + 1, 0) && fresh(cells - old(cells))
      ensures forall n :: n in cells - old(cells) ==> MadeFrom(n, walkable, hitLayer)
    {
      for y := 0 to sizeY
        invariant BuiltUpTo(x, y) && cells >= old(cells) && fresh(cells - old(cells))
        invariant forall n :: n in cells - old(cells) ==> MadeFrom(n, walkable, hitLayer)
      {
        var node := NewNode(x, y, walkable[x][y], hitLayer[x][y]);
        Place(x, y, node);
      }
      assert (x + 1) * sizeY == x * sizeY + sizeY;
    }

    /**
     * The node for cell (x, y): its terrain penalty, plus the obstacle
     * proximity penalty when the cell is not walkable.
     */
    method NewNode(x: int, y: int, isWalkable: bool, hit: Option<int>) returns (node: GridNode)
      ensures fresh(node) && node.gridX == x && node.gridY == y
      ensures Initial(node, isWalkable, RawPenalty(isWalkable, hit, walkableRegions, obstacleProximityPenalty))
    {
      var movementPenalty := TerrainPenalty(hit, walkableRegions);
      if !isWalkable {
        movementPenalty := movementPenalty + obstacleProximityPenalty;
      }
      node := new GridNode(isWalkable, x, y, movementPenalty);
    }

    /** Stores a new node in its cell, the next one to fill. */
    method Place(x: int, y: int, node: GridNode)
      requires BuiltUpTo(x, y) && 0 <= x < sizeX && 0 <= y < sizeY
      requires node.gridX == x && node.gridY == y && node !in cells
      modifies this`cells, nodes
      ensures BuiltUpTo(x, y + 1) && cells == old(cells) + {node}
    {
      label Before:
      nodes[x, y] := node;
      cells := cells + {node};
      forall i, j | 0 <= i < sizeX && 0 <= j < sizeY && (i < x || (i == x && j <= y))
        ensures nodes[i, j] != null && nodes[i, j] in cells && nodes[i, j].gridX == i && nodes[i, j].gridY == j
      {
        if i != x || j != y {
          assert nodes[i, j] == old@Before(nodes[i, j]);
        }
      }
    }

    /**
     * Blurs every node's penalty with a (2 blurSize + 1)-square box: a horizontal
     * sliding-window pass into one buffer, then a vertical one over it whose
     * sums, divided by the box's area and rounded, become the new penalties.
     * `raw` are the penalties before the blur. The bounds record the extremes of
     * the blurred penalties of rows 1 and up.
     */
    method BlurPenaltyMap(blurSize: int, ghost raw: seq<seq<int>>)
      requires Valid() && 0 <= blurSize < sizeX && blurSize < sizeY
      requires Table(raw, sizeX, sizeY) && PenaltiesAre(raw)
      modifies this`penaltyMin, this`penaltyMax, cells`movementPenalty
      ensures forall n :: n in cells ==> n.movementPenalty == Blurred(raw, blurSize, n.gridX, n.gridY)
      ensures penaltyMin <= old(penaltyMin) && penaltyMax >= old(penaltyMax)
      ensures forall x, y :: 0 <= x < sizeX && 1 <= y < sizeY ==> penaltyMin <= Blurred(raw, blurSize, x, y) <= penaltyMax
      ensures penaltyMin == old(penaltyMin) || exists x, y :: 0 <= x < sizeX && 1 <= y < sizeY && penaltyMin == Blurred(raw, blurSize, x, y)
      ensures penaltyMax == old(penaltyMax) || exists x, y :: 0 <= x < sizeX && 1 <= y < sizeY && penaltyMax == Blurred(raw, blurSize, x, y)
    {
      var kernelSize := blurSize * 2 + 1;
      var kernelExtents := (kernelSize - 1) / 2;
      assert kernelExtents == blurSize;
      var penaltiesHorizontalPass := new int[sizeX, sizeY]((_, _) => 0);
      var penaltiesVerticalPass := new int[sizeX, sizeY]((_, _) => 0);
      HorizontalPass(penaltiesHorizontalPass, kernelExtents, raw);
      VerticalPass(penaltiesHorizontalPass, penaltiesVerticalPass, kernelExtents, kernelSize, raw);
    }

    /** The horizontal pass of `BlurPenaltyMap`: the horizontal sums of every row, into `hpass`. */
    method HorizontalPass(hpass: array2<int>, k: int, ghost raw: seq<seq<int>>)
      requires Valid() && 0 <= k < sizeX && 0 < sizeY
      requires Table(raw, sizeX, sizeY) && PenaltiesAre(raw)
      requires hpass.Length0 == sizeX && hpass.Length1 == sizeY
      requires forall i, j :: 0 <= i < sizeX && 0 <= j < sizeY ==> hpass[i, j] == 0
      modifies hpass
      ensures forall i, j :: 0 <= i < sizeX && 0 <= j < sizeY ==> hpass[i, j] == HorizontalSum(raw, k, i, j)
    {
      for y := 0 to sizeY
        invariant forall i, j :: 0 <= i < sizeX && 0 <= j < sizeY ==>
          hpass[i, j] == if j < y then HorizontalSum(raw, k, i, j) else 0
      {
        forall i | 0 <= i < sizeX
          ensures nodes[i, y] != null && nodes[i, y].movementPenalty == Row(raw, y)[i]
        {
          assert nodes[i, y] in cells;
        }
        HorizontalRow(hpass, k, y, Row(raw, y));
      }
    }

    /** The vertical pass of `BlurPenaltyMap`: the vertical sums of every column, their rounded averages, and the bounds. */
    method VerticalPass(hpass: array2<int>, vpass: array2<int>, k: int, kernelSize: int, ghost raw: seq<seq<int>>)
      requires Valid() && 0 <= k < sizeY && 0 < sizeX && kernelSize == 2 * k + 1
      requires Table(raw, sizeX, sizeY)
      requires hpass.Length0 == sizeX && hpass.Length1 == sizeY && vpass.Length0 == sizeX && vpass.Length1 == sizeY
      requires hpass != vpass && forall i :: 0 <= i < sizeX ==> vpass[i, 0] == 0
      requires forall i, j :: 0 <= i < sizeX && 0 <= j < sizeY ==> hpass[i, j] == HorizontalSum(raw, k, i, j)
      modifies vpass, this`penaltyMin, this`penaltyMax, cells`movementPenalty
      ensures forall n :: n in cells ==> n.movementPenalty == Blurred(raw, k, n.gridX, n.gridY)
      ensures penaltyMin <= old(penaltyMin) && penaltyMax >= old(penaltyMax)
      ensures forall x, y :: 0 <= x < sizeX && 1 <= y < sizeY ==> penaltyMin <= Blurred(raw, k, x, y) <= penaltyMax
      ensures penaltyMin == old(penaltyMin) || exists x, y :: 0 <= x < sizeX && 1 <= y < sizeY && penaltyMin == Blurred(raw, k, x, y)
      ensures penaltyMax == old(penaltyMax) || exists x, y :: 0 <= x < sizeX && 1 <= y < sizeY && penaltyMax == Blurred(raw, k, x, y)
    {
      for x := 0 to sizeX
        invariant forall i :: x <= i < sizeX ==> vpass[i, 0] == 0
        invariant forall n :: n in cells && n.gridX < x ==> n.movementPenalty == Blurred(raw, k, n.gridX, n.gridY)
        invariant penaltyMin <= old(penaltyMin) && penaltyMax >= old(penaltyMax)
        invariant forall i, j :: 0 <= i < x && 1 <= j < sizeY ==> penaltyMin <= Blurred(raw, k, i, j) <= penaltyMax
        invariant penaltyMin == old(penaltyMin) || exists i, j :: 0 <= i < x && 1 <= j < sizeY && penaltyMin == Blurred(raw, k, i, j)
        invariant penaltyMax == old(penaltyMax) || exists i, j :: 0 <= i < x && 1 <= j < sizeY && penaltyMax == Blurred(raw, k, i, j)
      {
        ghost var column := HorizontalColumn(raw, k, x);
        VerticalColumn(hpass, vpass, k, kernelSize, x, column);
        forall n | n in cells && n.gridX == x
          ensures n.movementPenalty == Blurred(raw, k, x, n.gridY)
        {
          assert n == nodes[x, n.gridY];
        }
      }
    }

    /** The horizontal pass over row y, whose nodes carry the penalties `row`: a seed window at column 0, then one slide per column. */
    method HorizontalRow(hpass: array2<int>, k: int, y: int, ghost row: seq<int>)
      requires nodes != null && nodes.Length0 == sizeX && nodes.Length1 == sizeY
      requires 0 <= k < sizeX && 0 <= y < sizeY && |row| == sizeX
      requires forall i :: 0 <= i < sizeX ==> nodes[i, y] != null && nodes[i, y].movementPenalty == row[i]
      requires hpass.Length0 == sizeX && hpass.Length1 == sizeY && hpass[0, y] == 0
      modifies hpass
      ensures forall i :: 0 <= i < sizeX ==> hpass[i, y] == WindowSum(row, i - k, i + k + 1)
      ensures forall i, j :: 0 <= i < sizeX && 0 <= j < sizeY && j != y ==> hpass[i, j] == old(hpass[i, j])
    {
      for x := -k to k + 1
        invariant hpass[0, y] == WindowSum(row, -k, x)
        invariant forall i, j :: 0 <= i < sizeX && 0 <= j < sizeY && j != y ==> hpass[i, j] == old(hpass[i, j])
      {
        var sampleX := Clamp(x, 0, k);
        assert sampleX == Clamp(x, 0, sizeX - 1);
        hpass[0, y] := hpass[0, y] + nodes[sampleX, y].movementPenalty;
      }
      for x := 1 to sizeX
        invariant forall i :: 0 <= i < x ==> hpass[i, y] == WindowSum(row, i - k, i + k + 1)
        invariant forall i, j :: 0 <= i < sizeX && 0 <= j < sizeY && j != y ==> hpass[i, j] == old(hpass[i, j])
      {
        var removeIndex := Max(0, x - k - 1);
        var addIndex := Min(sizeX - 1, x + k);
        assert removeIndex == Clamp(x - 1 - k, 0, sizeX - 1) && addIndex == Clamp(x + k, 0, sizeX - 1);
        WindowSlide(row, x - 1 - k, x + k);
        hpass[x, y] := hpass[x - 1, y] - nodes[removeIndex, y].movementPenalty + nodes[addIndex, y].movementPenalty;
      }
    }

    /**
     * The vertical pass over column x, whose horizontal sums are `column`: a
     * seed window at row 0, then one slide per row, each window's rounded
     * average becoming the penalty of its node; rows 1 and up widen the bounds.
     */
    method VerticalColumn(hpass: array2<int>, vpass: array2<int>, k: int, kernelSize: int, x: int, ghost column: seq<int>)
      requires nodes != null && nodes.Length0 == sizeX && nodes.Length1 == sizeY
      requires 0 <= k < sizeY && kernelSize == 2 * k + 1 && 0 <= x < sizeX && |column| == sizeY
      requires forall j :: 0 <= j < sizeY ==> nodes[x, j] != null && nodes[x, j].gridY == j
      requires hpass.Length0 == sizeX && hpass.Length1 == sizeY && vpass.Length0 == sizeX && vpass.Length1 == sizeY
      requires hpass != vpass && vpass[x, 0] == 0
      requires forall j :: 0 <= j < sizeY ==> hpass[x, j] == column[j]
      modifies vpass, this`penaltyMin, this`penaltyMax, (set j | 0 <= j < sizeY :: nodes[x, j])`movementPenalty
      ensures forall i :: 0 <= i < sizeX && i != x ==> vpass[i, 0] == old(vpass[i, 0])
      ensures forall j :: 0 <= j < sizeY ==> nodes[x, j].movementPenalty == Smoothed(column, k, j)
      ensures penaltyMin <= old(penaltyMin) && penaltyMax >= old(penaltyMax)
      ensures forall j :: 1 <= j < sizeY ==> penaltyMin <= Smoothed(column, k, j) <= penaltyMax
      ensures penaltyMin == old(penaltyMin) || exists j :: 1 <= j < sizeY && penaltyMin == Smoothed(column, k, j)
      ensures penaltyMax == old(penaltyMax) || exists j :: 1 <= j < sizeY && penaltyMax == Smoothed(column, k, j)
    {
      SeedColumn(hpass, vpass, k, x, column);
      var blurredPenalty := RoundHalfEven(vpass[x, 0], kernelSize * kernelSize);
      nodes[x, 0].movementPenalty := blurredPenalty;
      for y := 1 to sizeY
        invariant vpass[x, y - 1] == WindowSum(column, y - 1 - k, y + k)
        invariant forall i :: 0 <= i < sizeX && i != x ==> vpass[i, 0] == old(vpass[i, 0])
        invariant forall j :: 0 <= j < y ==> nodes[x, j].movementPenalty == Smoothed(column, k, j)
        invariant penaltyMin <= old(penaltyMin) && penaltyMax >= old(penaltyMax)
        invariant forall j :: 1 <= j < y ==> penaltyMin <= Smoothed(column, k, j) <= penaltyMax
        invariant penaltyMin == old(penaltyMin) || exists j :: 1 <= j < y && penaltyMin == Smoothed(column, k, j)
        invariant penaltyMax == old(penaltyMax) || exists j :: 1 <= j < y && penaltyMax == Smoothed(column, k, j)
      {
        BlurCell(hpass, vpass, k, kernelSize, x, y, column);
      }
    }

    /** The first window of the vertical pass over column x: rows -k .. k, clamped to [0, k]. */
    method SeedColumn(hpass: array2<int>, vpass: array2<int>, k: int, x: int, ghost column: seq<int>)
      requires 0 <= k < sizeY && 0 <= x < sizeX && |column| == sizeY
      requires hpass.Length0 == sizeX && hpass.Length1 == sizeY && vpass.Length0 == sizeX && vpass.Length1 == sizeY
      requires hpass != vpass && vpass[x, 0] == 0
      requires forall j :: 0 <= j < sizeY ==> hpass[x, j] == column[j]
      modifies vpass
      ensures vpass[x, 0] == WindowSum(column, -k, k + 1)
      ensures forall i :: 0 <= i < sizeX && i != x ==> vpass[i, 0] == old(vpass[i, 0])
    {
      for y := -k to k + 1
        invariant vpass[x, 0] == WindowSum(column, -k, y)
        invariant forall i :: 0 <= i < sizeX && i != x ==> vpass[i, 0] == old(vpass[i, 0])
      {
        var sampleY := Clamp(y, 0, k);
        assert sampleY == Clamp(y, 0, sizeY - 1);
        vpass[x, 0] := vpass[x, 0] + hpass[x, sampleY];
      }
    }

    /**
     * One step of the vertical pass: slides the window of column x down to row
     * y, stores the rounded average as the penalty of node (x, y), and widens
     * the penalty bounds to include it.
     */
    method BlurCell(hpass: array2<int>, vpass: array2<int>, k: int, kernelSize: int, x: int, y: int, ghost column: seq<int>)
      requires nodes != null && nodes.Length0 == sizeX && nodes.Length1 == sizeY
      requires 0 <= k < sizeY && kernelSize == 2 * k + 1 && 0 <= x < sizeX && 1 <= y < sizeY && |column| == sizeY
      requires nodes[x, y] != null
      requires hpass.Length0 == sizeX && hpass.Length1 == sizeY && vpass.Length0 == sizeX && vpass.Length1 == sizeY
      requires hpass != vpass && vpass[x, y - 1] == WindowSum(column, y - 1 - k, y + k)
      requires forall j :: 0 <= j < sizeY ==> hpass[x, j] == column[j]
      modifies vpass, this`penaltyMin, this`penaltyMax, nodes[x, y]`movementPenalty
      ensures vpass[x, y] == WindowSum(column, y - k, y + k + 1)
      ensures forall i :: 0 <= i < sizeX ==> vpass[i, 0] == old(vpass[i, 0])
      ensures nodes[x, y].movementPenalty == Smoothed(column, k, y)
      ensures penaltyMin == Min(old(penaltyMin), Smoothed(column, k, y))
      ensures penaltyMax == Max(old(penaltyMax), Smoothed(column, k, y))
    {
      var removeIndex := Clamp(y - k - 1, 0, sizeY);
      var addIndex := Clamp(y + k, 0, sizeY - 1);
      assert removeIndex == Clamp(y - 1 - k, 0, sizeY - 1);
      WindowSlide(column, y - 1 - k, y + k);
      vpass[x, y] := vpass[x, y - 1] - hpass[x, removeIndex] + hpass[x, addIndex];
      var blurredPenalty := RoundHalfEven(vpass[x, y], kernelSize * kernelSize);
      nodes[x, y].movementPenalty := blurredPenalty;
      if blurredPenalty > penaltyMax {
        penaltyMax := blurredPenalty;
      }
      if blurredPenalty < penaltyMin {
        penaltyMin := blurredPenalty;
      }
    }

    /**
     * The node under world position (wx, wz): the position's share of each
     * world extent, clamped to the grid, picks the cell.
     */
    method NodeFromWorldPoint(wx: int, wz: int) returns (node: GridNode)
      requires Valid() && sizeX > 0 && sizeY > 0 && worldSizeX > 0 && worldSizeY > 0
      ensures node in cells
      ensures node.gridX == WorldToIndex(wx, worldSizeX, sizeX) && node.gridY == WorldToIndex(wz, worldSizeY, sizeY)
    {
      var x := WorldToIndex(wx, worldSizeX, sizeX);
      var y := WorldToIndex(wz, worldSizeY, sizeY);
      node := nodes[x, y];
    }

    /**
     * The 8-neighbourhood of a node: the nodes of the in-bounds cells at most
     * one step away on each axis, the node's own cell excluded, walkable or not.
     */
    method GetNeighbours(node: GridNode) returns (neighbours: seq<GridNode>)
      requires Valid()
      ensures neighbours == NeighboursBefore(node, 2, -1)
      ensures forall m :: m in neighbours ==> m in cells && Adjacent(node, m)
      ensures forall m :: m in cells && Adjacent(node, m) ==> m in neighbours
      ensures forall i, j :: 0 <= i < j < |neighbours| ==> neighbours[i] != neighbours[j]
      ensures |neighbours| <= 8
    {
      neighbours := [];
      for x := -1 to 2
        invariant neighbours == NeighboursBefore(node, x, -1)
      {
        for y := -1 to 2
          invariant neighbours == NeighboursBefore(node, x, y)
        {
          if x == 0 && y == 0 {
            continue;
          }
          var checkX := node.gridX + x;
          var checkY := node.gridY + y;
          if checkX >= 0 && checkX < sizeX && checkY >= 0 && checkY < sizeY {
            neighbours := neighbours + [nodes[checkX, checkY]];
          }
        }
      }
      NeighboursGathered(node, 2, -1);
      NeighboursCounted(node, 2, -1);
      GatheredAll(node, neighbours);
    }

    /** What offset (x, y) from the node contributes: the node of that cell, unless it is the node's own cell or off the grid. */
    function NeighbourAt(node: GridNode, x: int, y: int): (r: seq<GridNode>)
      reads this`nodes, this`cells, nodes
      requires Valid()
      ensures |r| <= 1
    {
      var checkX, checkY := node.gridX + x, node.gridY + y;
      if (x == 0 && y == 0) || !(0 <= checkX < sizeX && 0 <= checkY < sizeY) then [] else [nodes[checkX, checkY]]
    }

    /**
     * The neighbours the loops have gathered before offset (x, y): offsets
     * are visited column by column, x in the outer loop and y in the inner one.
     */
    function NeighboursBefore(node: GridNode, x: int, y: int): seq<GridNode>
      reads this`nodes, this`cells, nodes
      requires Valid() && -1 <= x && -1 <= y <= 2
      decreases 4 * x + y + 5
    {
      if x == -1 && y == -1 then []
      else if y == -1 then NeighboursBefore(node, x - 1, 2)
      else NeighboursBefore(node, x, y - 1) + NeighbourAt(node, x, y - 1)
    }

    /** The neighbours gathered before (x, y) are the adjacent nodes whose offsets come before it, each once, at most 8 of them. */
    lemma {:induction false} NeighboursGathered(node: GridNode, x: int, y: int)
      requires Valid() && -1 <= x <= 2 && -1 <= y <= 2 && (x == 2 ==> y == -1)
      ensures Gathered(node, NeighboursBefore(node, x, y), x, y)
      decreases 4 * x + y + 5
    {
      if x == -1 && y == -1 {
      } else if y == -1 {
        NeighboursGathered(node, x - 1, 2);
        GatheredColumn(node, NeighboursBefore(node, x - 1, 2), x);
      } else {
        NeighboursGathered(node, x, y - 1);
        GatheredStep(node, NeighboursBefore(node, x, y - 1), x, y);
      }
    }

    /** Each offset but the node's own cell adds at most one node, so at most 8 are gathered. */
    lemma {:induction false} NeighboursCounted(node: GridNode, x: int, y: int)
      requires Valid() && -1 <= x <= 2 && -1 <= y <= 2
      ensures |NeighboursBefore(node, x, y)| <= 3 * (x + 1) + (y + 1) - (if x > 0 || (x == 0 && y > 0) then 1 else 0)
      decreases 4 * x + y + 5
    {
      if x == -1 && y == -1 {
      } else if y == -1 {
        NeighboursCounted(node, x - 1, 2);
      } else {
        NeighboursCounted(node, x, y - 1);
      }
    }

    /**
     * Visiting offset (x, y - 1) keeps the gathered nodes exact: the node's own
     * cell and off-grid cells add nothing, any other cell adds its node, which is new.
     */
    lemma GatheredStep(node: GridNode, neighbours: seq<GridNode>, x: int, y: int)
      requires Valid() && Gathered(node, neighbours, x, y - 1) && -1 <= x <= 1 && 0 <= y <= 2
      ensures Gathered(node, neighbours + NeighbourAt(node, x, y - 1), x, y)
    {
      var checkX, checkY := node.gridX + x, node.gridY + (y - 1);
      if (x == 0 && y - 1 == 0) || !(0 <= checkX < sizeX && 0 <= checkY < sizeY) {
        assert neighbours + NeighbourAt(node, x, y - 1) == neighbours;
        GatheredSkip(node, neighbours, x, y);
      } else {
        GatheredAdd(node, neighbours, x, y);
      }
    }

    /** An offset that is the node's own cell, or that leaves the grid, adds nothing. */
    lemma GatheredSkip(node: GridNode, neighbours: seq<GridNode>, x: int, y: int)
      requires Valid() && Gathered(node, neighbours, x, y - 1)
      requires (x == 0 && y - 1 == 0) || !(0 <= node.gridX + x < sizeX && 0 <= node.gridY + (y - 1) < sizeY)
      ensures Gathered(node, neighbours, x, y)
    {
      forall m | m in cells && Adjacent(node, m) && OffsetBefore(m.gridX - node.gridX, m.gridY - node.gridY, x, y)
        ensures m in neighbours
      {
        assert OffsetBefore(m.gridX - node.gridX, m.gridY - node.gridY, x, y - 1);
      }
    }

    /** Any other offset adds the node of its cell, which is new. */
    lemma GatheredAdd(node: GridNode, neighbours: seq<GridNode>, x: int, y: int)
      requires Valid() && Gathered(node, neighbours, x, y - 1) && -1 <= x <= 1 && 0 <= y <= 2 && (x != 0 || y != 1)
      requires 0 <= node.gridX + x < sizeX && 0 <= node.gridY + (y - 1) < sizeY
      ensures Gathered(node, neighbours + [nodes[node.gridX + x, node.gridY + (y - 1)]], x, y)
    {
      var added := nodes[node.gridX + x, node.gridY + (y - 1)];
      assert added !in neighbours;
      var ns := neighbours + [added];
      forall m | m in cells && Adjacent(node, m) && OffsetBefore(m.gridX - node.gridX, m.gridY - node.gridY, x, y)
        ensures m in ns
      {
        if !OffsetBefore(m.gridX - node.gridX, m.gridY - node.gridY, x, y - 1) {
          assert m == added;
        }
      }
    }

    /** Past the last row of a column of offsets comes the first row of the next. */
    lemma GatheredColumn(node: GridNode, neighbours: seq<GridNode>, x: int)
      requires Gathered(node, neighbours, x - 1, 2)
      ensures Gathered(node, neighbours, x, -1)
    {
    }

    /** Past the last column of offsets, every adjacent node is gathered. */
    lemma GatheredAll(node: GridNode, neighbours: seq<GridNode>)
      requires Gathered(node, neighbours, 2, -1)
      ensures forall m :: m in neighbours ==> m in cells && Adjacent(node, m)
      ensures forall m :: m in cells && Adjacent(node, m) ==> m in neighbours
      ensures forall i, j :: 0 <= i < j < |neighbours| ==> neighbours[i] != neighbours[j]
    {
    }

    /**
     * `neighbours` are, without repetition, the nodes adjacent to `node` whose
     * offset from it comes before (x, y) in the order the loops visit offsets.
     */
    ghost predicate Gathered(node: GridNode, neighbours: seq<GridNode>, x: int, y: int)
      reads this`cells
    {
      (forall m :: m in neighbours ==> m in cells && Adjacent(node, m) && OffsetBefore(m.gridX - node.gridX, m.gridY - node.gridY, x, y)) &&
      (forall m :: m in cells && Adjacent(node, m) && OffsetBefore(m.gridX - node.gridX, m.gridY - node.gridY, x, y) ==> m in neighbours) &&
      (forall i, j :: 0 <= i < j < |neighbours| ==> neighbours[i] != neighbours[j])
    }
}
}
