/** One grid cell's search state and the order the open set ranks cells by. */
module GridNodes {
  import opened Numerics

  /** What a node is ranked by: its total cost (G + H) first, its heuristic cost second. */
  datatype Priority = Priority(fCost: int, hCost: int)

  /**
   * `GridNode.CompareTo` on the two ranking costs: `int.CompareTo` on the F costs,
   * on a tie `int.CompareTo` on the H costs, negated. A positive result means the
   * first node is the better candidate, that is, its costs are lower.
   */
  function Compare(a: Priority, b: Priority): (c: int)
    ensures -1 <= c <= 1
    ensures c > 0 <==> a.fCost < b.fCost || (a.fCost == b.fCost && a.hCost < b.hCost)
    ensures c < 0 <==> a.fCost > b.fCost || (a.fCost == b.fCost && a.hCost > b.hCost)
    ensures c == 0 <==> a == b
  {
    var compare := CompareInt(a.fCost, b.fCost);
    var tieBroken := if compare == 0 then CompareInt(a.hCost, b.hCost) else compare;
    -tieBroken
  }

  lemma CompareReflexive(a: Priority)
    ensures Compare(a, a) == 0
  {
  }

  lemma CompareAntisymmetric(a: Priority, b: Priority)
    ensures Compare(a, b) == -Compare(b, a)
  {
  }

  /** "At least as good as" is a total preorder: transitive, and any two priorities are comparable. */
  lemma CompareTransitive(a: Priority, b: Priority, c: Priority)
    ensures Compare(a, b) >= 0 && Compare(b, c) >= 0 ==> Compare(a, c) >= 0
    ensures Compare(a, b) > 0 && Compare(b, c) >= 0 ==> Compare(a, c) > 0
    ensures Compare(a, b) >= 0 || Compare(b, a) >= 0
  {
  }

  class GridNode {
    const walkable: bool
    const gridX: int
    const gridY: int
    var movementPenalty: int
    var gCost: int
    var hCost: int
    var parent: GridNode?
    var heapIndex: int

    /** Stores walkability, coordinates and penalty unchanged; the other fields keep their C# defaults. */
    constructor (walkable: bool, gridX: int, gridY: int, penalty: int)
      ensures this.walkable == walkable && this.gridX == gridX && this.gridY == gridY
      ensures movementPenalty == penalty
      ensures gCost == 0 && hCost == 0 && parent == null && heapIndex == 0
    {
      this.walkable := walkable;
      this.gridX := gridX;
      this.gridY := gridY;
      movementPenalty := penalty;
      gCost, hCost := 0, 0;
      parent := null;
      heapIndex := 0;
    }

    /** The F cost: the cost of the best route found so far plus the estimate from here to the target. */
    function FCost(): (f: int)
      reads this`gCost, this`hCost
      ensures f - gCost == hCost
    {
      gCost + hCost
    }

    /** The priority the open set orders this node by. */
    function Key(): Priority
      reads this`gCost, this`hCost
    {
      Priority(FCost(), hCost)
    }

    function CompareTo(other: GridNode): (c: int)
      reads this`gCost, this`hCost, other`gCost, other`hCost
      ensures c > 0 <==> FCost() < other.FCost() || (FCost() == other.FCost() && hCost < other.hCost)
      ensures c == 0 <==> FCost() == other.FCost() && hCost == other.hCost
    {
      Compare(Key(), other.Key())
    }
  }
}
