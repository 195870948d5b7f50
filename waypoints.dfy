/**
 * Waypoints: reducing a route of grid cells to the cells where it turns, and
 * walking such waypoints back in straight lines. A cell stands for the world
 * position of its node's centre.
 */
module Waypoints {
  import opened Numerics

  /** A grid cell by its coordinates; also used for the step between two cells. */
  datatype Cell = Cell(x: int, y: int)

  function Sign(n: int): (s: int)
    ensures s == 1 <==> n > 0
    ensures s == -1 <==> n < 0
    ensures s == 0 <==> n == 0
  {
    if n > 0 then 1 else if n < 0 then -1 else 0
  }

  /** The step from a to b (the code's `Vector2` direction is `Delta(to, from)`). */
  function Delta(a: Cell, b: Cell): Cell
  {
    Cell(b.x - a.x, b.y - a.y)
  }

  /** b is one king move from a: another cell at most one step away on each axis. */
  predicate KingStep(a: Cell, b: Cell)
  {
    a != b && -1 <= b.x - a.x <= 1 && -1 <= b.y - a.y <= 1
  }

  /** Each cell of r is one king move from the one before it. */
  predicate IsWalk(r: seq<Cell>)
  {
    forall j :: 0 < j < |r| ==> KingStep(r[j - 1], r[j])
  }

  /** A direction a king moves in. */
  predicate Unit(d: Cell)
  {
    d != Cell(0, 0) && -1 <= d.x <= 1 && -1 <= d.y <= 1
  }

  /** The number of king moves from a to b. */
  function Chebyshev(a: Cell, b: Cell): nat
  {
    if Abs(b.x - a.x) < Abs(b.y - a.y) then Abs(b.y - a.y) else Abs(b.x - a.x)
  }

  /**
   * The cells a straight walk from a to b enters, b last: every step moves one
   * cell towards b on each axis where b is not yet reached.
   */
  function Walk(a: Cell, b: Cell): (w: seq<Cell>)
    ensures w == [] <==> a == b
    ensures w != [] ==> w[|w| - 1] == b
    decreases Chebyshev(a, b)
  {
    if a == b then []
    else
      var next := Cell(a.x + Sign(b.x - a.x), a.y + Sign(b.y - a.y));
      [next] + Walk(next, b)
  }

  /** The cells walked from `from` through each waypoint in turn, straight from one to the next. */
  function Rewalk(from: Cell, waypoints: seq<Cell>): seq<Cell>
    decreases |waypoints|
  {
    if waypoints == [] then [] else Walk(from, waypoints[0]) + Rewalk(waypoints[0], waypoints[1..])
  }

  /** A walk through waypoints that enters any cell ends at the last waypoint. */
  lemma {:induction false} RewalkEnds(from: Cell, waypoints: seq<Cell>)
    requires Rewalk(from, waypoints) != []
    ensures waypoints != [] && Rewalk(from, waypoints)[|Rewalk(from, waypoints)| - 1] == waypoints[|waypoints| - 1]
    decreases |waypoints|
  {
    var rest := Rewalk(waypoints[0], waypoints[1..]);
    if rest != [] {
      RewalkEnds(waypoints[0], waypoints[1..]);
    } else {
      assert from != waypoints[0];
      if |waypoints| > 1 {
        RewalkEmpty(waypoints[0], waypoints[1..]);
        assert waypoints[|waypoints| - 1] in waypoints[1..];
      }
    }
  }

  /** A walk through waypoints that enters no cell never leaves its first cell. */
  lemma {:induction false} RewalkEmpty(from: Cell, waypoints: seq<Cell>)
    requires Rewalk(from, waypoints) == []
    ensures forall c :: c in waypoints ==> c == from
    decreases |waypoints|
  {
    if waypoints != [] {
      assert Walk(from, waypoints[0]) == [];
      assert from == waypoints[0];
      RewalkEmpty(waypoints[0], waypoints[1..]);
      assert forall c :: c in waypoints ==> c == waypoints[0] || c in waypoints[1..];
    }
  }

  /** k steps of u, where u is -1, 0 or 1. */
  function Scale(k: int, u: int): int
  {
    if u == 1 then k else if u == -1 then -k else 0
  }

  /** k > 0 steps of a unit component keep its sign. */
  lemma ScaledSign(k: int, u: int)
    requires k > 0 && -1 <= u <= 1
    ensures Sign(Scale(k, u)) == u
  {
  }

  /** The cell k steps along d from a. */
  function Ray(a: Cell, d: Cell, k: int): Cell
  {
    Cell(a.x + Scale(k, d.x), a.y + Scale(k, d.y))
  }

  /** The k cells after a along d, nearest first. */
  function Line(a: Cell, d: Cell, k: nat): (l: seq<Cell>)
    ensures |l| == k
    decreases k
  {
    if k == 0 then [] else [Cell(a.x + d.x, a.y + d.y)] + Line(Cell(a.x + d.x, a.y + d.y), d, k - 1)
  }

  /** The elements of s, last first. */
  function Reverse<T>(s: seq<T>): (r: seq<T>)
    ensures |r| == |s|
  {
    if s == [] then [] else [s[|s| - 1]] + Reverse(s[..|s| - 1])
  }

  /** Position i of the reversal holds the element i places from the end. */
  lemma {:induction false} ReverseIndex<T>(s: seq<T>)
    ensures forall i :: 0 <= i < |s| ==> Reverse(s)[i] == s[|s| - 1 - i]
    decreases |s|
  {
    if s != [] {
      ReverseIndex(s[..|s| - 1]);
    }
  }

  /**
   * Whether the second cell of a start-first route is one of its waypoints:
   * the route turns there, or it is the route's last cell and differs from the first.
   */
  predicate TurnsAtSecond(r: seq<Cell>)
    requires |r| >= 2
  {
    if |r| == 2 then r[0] != r[1] else Delta(r[0], r[1]) != Delta(r[1], r[2])
  }

  /**
   * The waypoints of a start-first route: each cell after the start where the
   * route changes direction, then its last cell.
   */
  function Turns(r: seq<Cell>): (t: seq<Cell>)
    ensures |r| > 0 ==> |t| < |r|
  {
    if |r| < 2 then [] else (if TurnsAtSecond(r) then [r[1]] else []) + Turns(r[1..])
  }

  /** What the code as written keeps: the cell before each waypoint, never the route's last cell. */
  function EarlyTurns(r: seq<Cell>): (t: seq<Cell>)
    ensures |r| > 0 ==> |t| < |r|
  {
    if |r| < 2 then [] else (if TurnsAtSecond(r) then [r[0]] else []) + EarlyTurns(r[1..])
  }

  /**
   * Cuts a route down to its waypoints. `path` runs from the target back to
   * the start, the start included; `path[i - 1]` is kept when the step from
   * `path[i]` to it differs from the step after it.
   */
  method SimplifyPath(path: seq<Cell>) returns (waypoints: seq<Cell>)
    ensures Reverse(waypoints) == Turns(Reverse(path))
  {
    waypoints := [];
    var directionOld := Cell(0, 0);
    var i := 1;
    while i < |path|
      invariant |path| == 0 || 1 <= i <= |path|
      invariant |path| == 0 ==> waypoints == []
      invariant |path| > 0 ==> Reverse(waypoints) == Turns(Reverse(path[..i]))
      invariant 1 < i <= |path| ==> directionOld == Delta(path[i - 1], path[i - 2])
      invariant i == 1 ==> directionOld == Cell(0, 0)
    {
      var directionNew := Cell(path[i - 1].x - path[i].x, path[i - 1].y - path[i].y);
      TurnsStep(path, i, waypoints, directionOld);
      if directionNew != directionOld {
        waypoints := waypoints + [path[i - 1]];
      }
      directionOld := directionNew;
      i := i + 1;
    }
    if |path| > 0 {
      assert path[..i] == path;
    }
  }

  /** One more cell of the target-first path is one more cell at the front of the route. */
  lemma PrependedCell(path: seq<Cell>, i: int)
    requires 1 <= i < |path|
    ensures Reverse(path[..i + 1]) == [path[i]] + Reverse(path[..i])
    ensures TurnsAtSecond(Reverse(path[..i + 1])) <==>
      if i == 1 then path[1] != path[0] else Delta(path[i], path[i - 1]) != Delta(path[i - 1], path[i - 2])
  {
    var r := Reverse(path[..i + 1]);
    assert path[..i + 1][..i] == path[..i];
    assert r == [path[i]] + Reverse(path[..i]);
  }

  /** One iteration of SimplifyPath's loop keeps its invariant. */
  lemma TurnsStep(path: seq<Cell>, i: int, before: seq<Cell>, directionOld: Cell)
    requires 1 <= i < |path|
    requires Reverse(before) == Turns(Reverse(path[..i]))
    requires i > 1 ==> directionOld == Delta(path[i - 1], path[i - 2])
    requires i == 1 ==> directionOld == Cell(0, 0)
    ensures Reverse(if Delta(path[i], path[i - 1]) != directionOld then before + [path[i - 1]] else before)
      == Turns(Reverse(path[..i + 1]))
  {
    PrependedCell(path, i);
    var r := Reverse(path[..i + 1]);
    assert r[1..] == Reverse(path[..i]);
    if Delta(path[i], path[i - 1]) != directionOld {
      ReversedSnoc(before, path[i - 1]);
    }
  }

  /** One iteration of SimplifyPathAsWritten's loop keeps its invariant. */
  lemma EarlyTurnsStep(path: seq<Cell>, i: int, before: seq<Cell>, directionOld: Cell)
    requires 1 <= i < |path|
    requires Reverse(before) == EarlyTurns(Reverse(path[..i]))
    requires i > 1 ==> directionOld == Delta(path[i - 1], path[i - 2])
    requires i == 1 ==> directionOld == Cell(0, 0)
    ensures Reverse(if Delta(path[i], path[i - 1]) != directionOld then before + [path[i]] else before)
      == EarlyTurns(Reverse(path[..i + 1]))
  {
    PrependedCell(path, i);
    var r := Reverse(path[..i + 1]);
    assert r[1..] == Reverse(path[..i]);
    if Delta(path[i], path[i - 1]) != directionOld {
      ReversedSnoc(before, path[i]);
    }
  }

  lemma ReversedSnoc<T>(s: seq<T>, x: T)
    ensures Reverse(s + [x]) == [x] + Reverse(s)
  {
    assert (s + [x])[..|s|] == s;
  }

  /**
   * The code as written: `path` runs from the target back to, but not
   * including, the start, and `path[i]` is kept where `path[i - 1]` should be.
   */
  method SimplifyPathAsWritten(path: seq<Cell>) returns (waypoints: seq<Cell>)
    ensures Reverse(waypoints) == EarlyTurns(Reverse(path))
  {
    waypoints := [];
    var directionOld := Cell(0, 0);
    var i := 1;
    while i < |path|
      invariant |path| == 0 || 1 <= i <= |path|
      invariant |path| == 0 ==> waypoints == []
      invariant |path| > 0 ==> Reverse(waypoints) == EarlyTurns(Reverse(path[..i]))
      invariant 1 < i <= |path| ==> directionOld == Delta(path[i - 1], path[i - 2])
      invariant i == 1 ==> directionOld == Cell(0, 0)
    {
      var directionNew := Cell(path[i - 1].x - path[i].x, path[i - 1].y - path[i].y);
      EarlyTurnsStep(path, i, waypoints, directionOld);
      if directionNew != directionOld {
        waypoints := waypoints + [path[i]];
      }
      directionOld := directionNew;
      i := i + 1;
    }
    if |path| > 0 {
      assert path[..i] == path;
    }
  }

  /** A walk of k cells along a unit direction enters exactly the cells of that line. */
  lemma {:induction false} WalkAlongLine(a: Cell, d: Cell, k: nat)
    requires Unit(d)
    ensures Walk(a, Ray(a, d, k)) == Line(a, d, k)
    decreases k
  {
    if k > 0 {
      var b := Ray(a, d, k);
      var next := Cell(a.x + d.x, a.y + d.y);
      assert Walk(a, b) == [next] + Walk(next, b) by {
        ScaledSign(k, d.x);
        ScaledSign(k, d.y);
        assert b != a;
      }
      assert Walk(next, b) == Line(next, d, k - 1) by {
        assert b == Ray(next, d, k - 1);
        WalkAlongLine(next, d, k - 1);
      }
    }
  }

  /** One more cell along the line. */
  lemma {:induction false} LineExtended(a: Cell, d: Cell, k: nat)
    requires Unit(d)
    ensures Line(a, d, k + 1) == Line(a, d, k) + [Ray(a, d, k + 1)]
    decreases k
  {
    var next := Cell(a.x + d.x, a.y + d.y);
    if k > 0 {
      LineExtended(next, d, k - 1);
      assert Ray(next, d, k) == Ray(a, d, k + 1);
    }
  }

  /**
   * The round trip behind the waypoints: from a cell k steps behind the
   * route's start on its first direction, walking the waypoints straight
   * passes those k cells and then exactly the route.
   */
  lemma {:induction false} RewalkTurnsFrom(a: Cell, d: Cell, k: nat, r: seq<Cell>)
    requires |r| >= 2 && IsWalk(r)
    requires r[0] == Ray(a, d, k) && Delta(r[0], r[1]) == d
    ensures Rewalk(a, Turns(r)) == Line(a, d, k) + r[1..]
    decreases |r|, 1
  {
    assert KingStep(r[0], r[1]);
    assert r[1] == Ray(a, d, k + 1);
    if TurnsAtSecond(r) {
      RewalkTurnsAtSecond(a, d, k, r);
    } else {
      assert Turns(r) == Turns(r[1..]);
      assert Rewalk(a, Turns(r)) == Line(a, d, k + 1) + r[2..] by {
        assert |r| > 2 && Delta(r[1], r[2]) == d;
        WalkTail(r);
        RewalkTurnsFrom(a, d, k + 1, r[1..]);
      }
      assert Line(a, d, k + 1) == Line(a, d, k) + [r[1]] by {
        LineExtended(a, d, k);
      }
      assert r[1..] == [r[1]] + r[2..];
    }
  }

  lemma WalkTail(r: seq<Cell>)
    requires |r| >= 1 && IsWalk(r)
    ensures IsWalk(r[1..])
  {
  }

  /** The case of RewalkTurnsFrom where the second cell is a waypoint: the walk goes straight to it. */
  lemma {:induction false} RewalkTurnsAtSecond(a: Cell, d: Cell, k: nat, r: seq<Cell>)
    requires |r| >= 2 && IsWalk(r) && TurnsAtSecond(r)
    requires r[1] == Ray(a, d, k + 1) && Unit(d)
    ensures Rewalk(a, Turns(r)) == Line(a, d, k) + r[1..]
    decreases |r|, 0
  {
    var rest := Turns(r[1..]);
    var walked := Rewalk(r[1], rest);
    assert Rewalk(a, Turns(r)) == Walk(a, r[1]) + walked by {
      assert Turns(r) == [r[1]] + rest;
      assert ([r[1]] + rest)[1..] == rest;
    }
    assert Walk(a, r[1]) == Line(a, d, k) + [r[1]] by {
      WalkAlongLine(a, d, k + 1);
      LineExtended(a, d, k);
    }
    assert walked == r[2..] by {
      if |r| > 2 {
        assert KingStep(r[1], r[2]);
        RewalkTurnsFrom(r[1], Delta(r[1], r[2]), 0, r[1..]);
      }
    }
    assert r[1..] == [r[1]] + r[2..];
  }

  /** Walking the waypoints of a route straight from its start passes through exactly the route. */
  lemma RewalkTurns(r: seq<Cell>)
    requires |r| >= 1 && IsWalk(r)
    ensures Rewalk(r[0], Turns(r)) == r[1..]
  {
    if |r| >= 2 {
      assert KingStep(r[0], r[1]);
      RewalkTurnsFrom(r[0], Delta(r[0], r[1]), 0, r);
      assert Ray(r[0], Delta(r[0], r[1]), 0) == r[0];
    }
  }

  /** The last cell of a route of two or more cells is its last waypoint. */
  lemma {:induction false} TurnsEndAtTarget(r: seq<Cell>)
    requires |r| >= 2 && IsWalk(r)
    ensures Turns(r) != [] && Turns(r)[|Turns(r)| - 1] == r[|r| - 1]
    decreases |r|
  {
    if |r| == 2 {
      assert Turns(r[1..]) == [];
    } else {
      TurnsEndAtTarget(r[1..]);
    }
  }

  /** As written, every waypoint is a cell of the route other than its last one. */
  lemma {:induction false} EarlyTurnsBeforeTarget(r: seq<Cell>)
    ensures forall c :: c in EarlyTurns(r) ==> c in r[..|r| - 1]
    decreases |r|
  {
    if |r| >= 2 {
      EarlyTurnsBeforeTarget(r[1..]);
      assert r[1..][..|r| - 2] == r[1..|r| - 1];
    }
  }

  /**
   * As written, walking the waypoints from the start never reaches a target
   * that appears only at the end of its route: the walk stops short.
   */
  lemma AsWrittenStopsShort(r: seq<Cell>)
    requires |r| >= 2 && IsWalk(r) && r[|r| - 1] !in r[..|r| - 1]
    ensures Rewalk(r[0], EarlyTurns(r[1..])) != r[1..]
  {
    var w := EarlyTurns(r[1..]);
    EarlyTurnsBeforeTarget(r[1..]);
    assert r[1..][..|r| - 2] == r[1..|r| - 1];
    if Rewalk(r[0], w) != [] {
      RewalkEnds(r[0], w);
      assert w[|w| - 1] in w;
    }
  }
}
