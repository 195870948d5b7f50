/**
 * The open set of the search: a binary heap over a fixed-capacity array whose
 * items carry their own slot number. The heap is specialised to `GridNode`,
 * its one instantiation in the program.
 */
module Heaps {
  import opened Numerics
  import opened GridNodes

  /** The parent slot as the code computes it, `(i - 1) / 2` with C# truncation: slot 0 is its own parent. */
  function Parent(i: int): (p: int)
    ensures i == 0 ==> p == 0
    ensures i > 0 ==> 0 <= p < i && (i == 2 * p + 1 || i == 2 * p + 2)
  {
    TruncDiv(i - 1, 2)
  }

  lemma ParentOfSlot(i: int)
    ensures i == 0 ==> Parent(i) == 0
    ensures i > 0 ==> 0 <= Parent(i) < i && (i == 2 * Parent(i) + 1 || i == 2 * Parent(i) + 2)
  {
  }

  /** Every slot's parent is at least as good as the slot, under `Compare`. */
  ghost predicate HeapOrdered(ks: seq<Priority>)
  {
    forall i :: 0 < i < |ks| ==> Compare(ks[Parent(i)], ks[i]) >= 0
  }

  /**
   * The state while an item at slot k sifts up: every edge but the one into k is
   * ordered, and k's parent is at least as good as k's children.
   */
  ghost predicate OrderedExceptAbove(ks: seq<Priority>, k: int)
  {
    && (forall i :: 0 < i < |ks| && i != k ==> Compare(ks[Parent(i)], ks[i]) >= 0)
    && (0 < k < |ks| ==> forall c {:trigger Parent(c)} :: 0 < c < |ks| && Parent(c) == k ==> Compare(ks[Parent(k)], ks[c]) >= 0)
  }

  /**
   * The state while an item at slot k sifts down: every edge but the ones out of k
   * is ordered, and k's parent is at least as good as k's children.
   */
  ghost predicate OrderedExceptBelow(ks: seq<Priority>, k: int)
  {
    && (forall i :: 0 < i < |ks| && Parent(i) != k ==> Compare(ks[Parent(i)], ks[i]) >= 0)
    && (0 < k < |ks| ==> forall c {:trigger Parent(c)} :: 0 < c < |ks| && Parent(c) == k ==> Compare(ks[Parent(k)], ks[c]) >= 0)
  }

  function Swapped<T>(s: seq<T>, i: int, j: int): (r: seq<T>)
    requires 0 <= i < |s| && 0 <= j < |s|
    ensures |r| == |s| && r[i] == s[j] && r[j] == s[i]
    ensures forall m :: 0 <= m < |s| && m != i && m != j ==> r[m] == s[m]
    ensures multiset(r) == multiset(s)
  {
    s[i := s[j]][j := s[i]]
  }

  /** The root of an ordered heap is at least as good as every item in it. */
  lemma {:induction false} RootIsBest(ks: seq<Priority>, i: int)
    requires HeapOrdered(ks) && 0 <= i < |ks|
    ensures Compare(ks[0], ks[i]) >= 0
    decreases i
  {
    if i == 0 {
      CompareReflexive(ks[0]);
    } else {
      ParentOfSlot(i);
      RootIsBest(ks, Parent(i));
      CompareTransitive(ks[0], ks[Parent(i)], ks[i]);
    }
  }

  /** Appending an item leaves only the new leaf's edge to repair by sifting up. */
  lemma AppendedLeaf(ks: seq<Priority>, p: Priority)
    requires HeapOrdered(ks)
    ensures OrderedExceptAbove(ks + [p], |ks|)
  {
    var ks' := ks + [p];
    forall c {:trigger Parent(c)} | 0 < c < |ks'| && Parent(c) == |ks|
      ensures false
    {
      ParentOfSlot(c);
    }
  }

  /** The slots after `RemoveFirst` moves the last live slot into the root and drops the last one. */
  function LastToRoot<T>(s: seq<T>): (r: seq<T>)
    requires |s| > 0
    ensures |r| == |s| - 1
    ensures |r| > 0 ==> r[0] == s[|s| - 1]
    ensures forall i :: 0 < i < |r| ==> r[i] == s[i]
  {
    s[0 := s[|s| - 1]][..|s| - 1]
  }

  /** Moving the last slot into the root loses exactly the root's item. */
  lemma LastToRootDropsRoot<T>(s: seq<T>)
    requires |s| > 0
    ensures multiset(LastToRoot(s)) + multiset{s[0]} == multiset(s)
  {
    var r := LastToRoot(s);
    assert s == [s[0]] + s[1..];
    if |s| > 1 {
      assert s[1..] == r[1..] + [s[|s| - 1]];
      assert r == [s[|s| - 1]] + r[1..];
    }
  }

  /** The root of an ordered heap is at least as good as every item in it. */
  lemma RootIsBestOfAll(ks: seq<Priority>)
    requires HeapOrdered(ks)
    ensures forall i :: 0 <= i < |ks| ==> Compare(ks[0], ks[i]) >= 0
  {
    forall i | 0 <= i < |ks|
      ensures Compare(ks[0], ks[i]) >= 0
    {
      RootIsBest(ks, i);
    }
  }

  /** Moving the last item into the root leaves only the root's edges to repair by sifting down. */
  lemma LastMovedToRoot(ks: seq<Priority>)
    requires HeapOrdered(ks) && |ks| > 0
    ensures OrderedExceptBelow(LastToRoot(ks), 0)
  {
    var ks' := LastToRoot(ks);
    forall i | 0 < i < |ks'| && Parent(i) != 0
      ensures Compare(ks'[Parent(i)], ks'[i]) >= 0
    {
      ParentOfSlot(i);
      assert ks'[Parent(i)] == ks[Parent(i)] && ks'[i] == ks[i];
    }
  }

  /**
   * Improving the priority of the item at slot k of an ordered heap leaves only
   * the edge into k to repair: the reason `UpdateItem` only sifts up.
   */
  lemma ImprovedKey(ks: seq<Priority>, k: int, p: Priority)
    requires HeapOrdered(ks) && 0 <= k < |ks|
    requires Compare(p, ks[k]) >= 0
    ensures OrderedExceptAbove(ks[k := p], k)
  {
    var ks' := ks[k := p];
    forall i | 0 < i < |ks'| && i != k
      ensures Compare(ks'[Parent(i)], ks'[i]) >= 0
    {
      ParentOfSlot(i);
      if Parent(i) == k {
        CompareTransitive(p, ks[k], ks[i]);
      }
    }
    if 0 < k {
      forall c {:trigger Parent(c)} | 0 < c < |ks'| && Parent(c) == k
        ensures Compare(ks'[Parent(k)], ks'[c]) >= 0
      {
        ParentOfSlot(k);
        ParentOfSlot(c);
        CompareTransitive(ks[Parent(k)], ks[k], ks[c]);
      }
    }
  }

  /** One step of sifting up: swapping an item with a worse parent moves the repair point to the parent. */
  lemma SiftUpStep(ks: seq<Priority>, k: int)
    requires 0 < k < |ks| && OrderedExceptAbove(ks, k)
    requires Compare(ks[k], ks[Parent(k)]) > 0
    ensures OrderedExceptAbove(Swapped(ks, k, Parent(k)), Parent(k))
  {
    ParentOfSlot(k);
    var p := Parent(k);
    var ks' := Swapped(ks, k, p);
    forall i | 0 < i < |ks'| && i != p
      ensures Compare(ks'[Parent(i)], ks'[i]) >= 0
    {
      ParentOfSlot(i);
      if i == k {
        CompareAntisymmetric(ks[k], ks[p]);
      } else if Parent(i) == k {
        assert ks'[Parent(i)] == ks[p];
      } else if Parent(i) == p {
        CompareTransitive(ks[k], ks[p], ks[i]);
      } else {
        assert Parent(i) != k && Parent(i) != p && i != p;
      }
    }
    if 0 < p {
      ParentOfSlot(p);
      forall c {:trigger Parent(c)} | 0 < c < |ks'| && Parent(c) == p
        ensures Compare(ks'[Parent(p)], ks'[c]) >= 0
      {
        ParentOfSlot(c);
        if c != k {
          CompareTransitive(ks[Parent(p)], ks[p], ks[c]);
        }
      }
    }
  }

  /** Sifting up stops at the root, or when the parent is at least as good: the heap is then ordered. */
  lemma SiftUpDone(ks: seq<Priority>, k: int)
    requires 0 <= k < |ks| && OrderedExceptAbove(ks, k)
    requires k == 0 || Compare(ks[k], ks[Parent(k)]) <= 0
    ensures HeapOrdered(ks)
  {
    if k > 0 {
      CompareAntisymmetric(ks[k], ks[Parent(k)]);
    }
  }

  /**
   * The child slot that sifting down picks for slot k: the left one, unless the
   * right one exists and the left one is strictly worse than it.
   */
  ghost predicate ChosenChild(ks: seq<Priority>, k: int, c: int)
  {
    && 0 <= k && 2 * k + 1 < |ks|
    && (|| (c == 2 * k + 1 && (2 * k + 2 < |ks| ==> Compare(ks[2 * k + 1], ks[2 * k + 2]) >= 0))
        || (c == 2 * k + 2 && c < |ks| && Compare(ks[2 * k + 1], ks[2 * k + 2]) < 0))
  }

  /** The chosen child is a child of k and at least as good as every child of k. */
  lemma BetterChild(ks: seq<Priority>, k: int, c: int)
    requires ChosenChild(ks, k, c)
    ensures 0 < c < |ks| && Parent(c) == k
    ensures forall s {:trigger Parent(s)} :: 0 < s < |ks| && Parent(s) == k ==> Compare(ks[c], ks[s]) >= 0
  {
    ParentOfSlot(c);
    forall s {:trigger Parent(s)} | 0 < s < |ks| && Parent(s) == k
      ensures Compare(ks[c], ks[s]) >= 0
    {
      ParentOfSlot(s);
      CompareReflexive(ks[s]);
      if s != c {
        CompareAntisymmetric(ks[2 * k + 1], ks[2 * k + 2]);
      }
    }
  }

  /**
   * One step of sifting down: swapping an item with its chosen child, when that
   * child is better than it, moves the repair point to the child's slot.
   */
  lemma SiftDownStep(ks: seq<Priority>, k: int, c: int)
    requires OrderedExceptBelow(ks, k) && ChosenChild(ks, k, c)
    requires Compare(ks[k], ks[c]) < 0
    ensures OrderedExceptBelow(Swapped(ks, k, c), c)
  {
    BetterChild(ks, k, c);
    var ks' := Swapped(ks, k, c);
    forall i | 0 < i < |ks'| && Parent(i) != c
      ensures Compare(ks'[Parent(i)], ks'[i]) >= 0
    {
      ParentOfSlot(i);
      if i == c {
        CompareAntisymmetric(ks[k], ks[c]);
      } else if Parent(i) == k {
        assert ks'[Parent(i)] == ks[c] && ks'[i] == ks[i];
      } else if i == k {
        assert ks'[Parent(i)] == ks[Parent(k)] && ks'[i] == ks[c];
      } else {
        assert ks'[Parent(i)] == ks[Parent(i)] && ks'[i] == ks[i];
      }
    }
    forall s {:trigger Parent(s)} | 0 < s < |ks| && Parent(s) == c
      ensures Compare(ks'[Parent(c)], ks'[s]) >= 0
    {
      ParentOfSlot(s);
      assert ks'[Parent(c)] == ks[c] && ks'[s] == ks[s];
    }
  }

  /** Sifting down stops when the chosen child is no better than the item: the heap is then ordered. */
  lemma SiftDownDone(ks: seq<Priority>, k: int, c: int)
    requires OrderedExceptBelow(ks, k) && ChosenChild(ks, k, c)
    requires Compare(ks[k], ks[c]) >= 0
    ensures HeapOrdered(ks)
  {
    BetterChild(ks, k, c);
    forall s {:trigger Parent(s)} | 0 < s < |ks| && Parent(s) == k
      ensures Compare(ks[k], ks[s]) >= 0
    {
      CompareTransitive(ks[k], ks[c], ks[s]);
    }
  }

  /** Sifting down stops at a slot whose left child slot is past the end: the heap is then ordered. */
  lemma SiftDownAtLeaf(ks: seq<Priority>, k: int)
    requires 0 <= k && |ks| <= 2 * k + 1 && OrderedExceptBelow(ks, k)
    ensures HeapOrdered(ks)
  {
    forall i | 0 < i < |ks|
      ensures Compare(ks[Parent(i)], ks[i]) >= 0
    {
      ParentOfSlot(i);
    }
  }

  /** Slots [0, n) of `a` hold items. */
  ghost predicate Filled(a: array<GridNode?>, n: int)
    reads a
  {
    0 <= n <= a.Length && forall i :: 0 <= i < n ==> a[i] != null
  }

  /** Slots [0, n) of `a` hold items whose `heapIndex` is their own slot. */
  ghost predicate Indexed(a: array<GridNode?>, n: int)
    reads a, a[..]`heapIndex
  {
    Filled(a, n) && forall i :: 0 <= i < n ==> a[i].heapIndex == i
  }

  /** The slots `s` hold items whose priorities are `ks`, slot by slot. */
  ghost predicate KeysAre(s: seq<GridNode?>, ks: seq<Priority>)
    reads s`gCost, s`hCost
  {
    |s| == |ks| && forall i :: 0 <= i < |s| ==> s[i] != null && s[i].Key() == ks[i]
  }

  /** Slot i holds an item, and so does its parent slot, which is at least as good. */
  ghost predicate ParentNoWorse(s: seq<GridNode?>, i: int)
    reads s`gCost, s`hCost
  {
    0 <= i < |s| && 0 <= Parent(i) < |s| && s[i] != null && s[Parent(i)] != null && s[Parent(i)].CompareTo(s[i]) >= 0
  }

  /** The heap order read directly off the items in the slots. */
  ghost predicate SlotsOrdered(s: seq<GridNode?>)
    reads s`gCost, s`hCost
  {
    forall i :: 0 < i < |s| ==> ParentNoWorse(s, i)
  }

  /** The priorities of a sequence of slots, one by one; an empty slot gets a placeholder. */
  ghost function KeysOf(s: seq<GridNode?>): (ks: seq<Priority>)
    reads s`gCost, s`hCost
    ensures |ks| == |s|
    ensures forall i :: 0 <= i < |s| && s[i] != null ==> ks[i] == s[i].Key()
  {
    if s == [] then [] else [if s[0] == null then Priority(0, 0) else s[0].Key()] + KeysOf(s[1..])
  }

  /** Slots that all hold items have a sequence of priorities. */
  lemma KeysExist(s: seq<GridNode?>) returns (ks: seq<Priority>)
    requires forall i :: 0 <= i < |s| ==> s[i] != null
    ensures KeysAre(s, ks)
  {
    ks := KeysOf(s);
  }

  /** Moving the last slot into the root moves its priority along with it. */
  lemma KeysAreLastToRoot(s: seq<GridNode?>, ks: seq<Priority>)
    requires KeysAre(s, ks) && |s| > 0
    ensures KeysAre(LastToRoot(s), LastToRoot(ks))
  {
  }

  /** Slots holding items have their priorities, and are ordered exactly when those priorities are. */
  lemma SlotsOrderedKeys(s: seq<GridNode?>, ks: seq<Priority>)
    requires KeysAre(s, ks)
    ensures SlotsOrdered(s) <==> HeapOrdered(ks)
  {
    forall i | 0 < i < |s|
      ensures ParentNoWorse(s, i) <==> Compare(ks[Parent(i)], ks[i]) >= 0
    {
      ParentOfSlot(i);
    }
  }

  /** The item in the root slot of an ordered heap is at least as good as every item in it. */
  lemma OrderedRootIsBest(s: seq<GridNode?>)
    requires SlotsOrdered(s) && forall i :: 0 <= i < |s| ==> s[i] != null
    ensures forall i :: 0 <= i < |s| ==> s[0].CompareTo(s[i]) >= 0
  {
    var ks := KeysExist(s);
    SlotsOrderedKeys(s, ks);
    RootIsBestOfAll(ks);
  }

  /** When every item's index is its slot, the root is not among the items left after the last one moves to the root. */
  lemma RootLeaves(live: seq<GridNode?>)
    requires |live| > 0 && forall i :: 0 <= i < |live| ==> live[i] != null && live[i].heapIndex == i
    ensures live[0] !in LastToRoot(live)
  {
    var rest := LastToRoot(live);
    forall j | 0 <= j < |rest|
      ensures rest[j] != live[0]
    {
      if j == 0 {
        assert rest[j].heapIndex == |live| - 1;
      } else {
        assert rest[j].heapIndex == j;
      }
    }
  }

  /** Two slots of a rearrangement of `before` hold items that `before` holds. */
  lemma InOldSlots<T>(now: seq<T>, before: seq<T>, i: int, j: int)
    requires multiset(now) == multiset(before) && 0 <= i < |now| && 0 <= j < |now|
    ensures now[i] in before && now[j] in before
  {
    assert now[i] in multiset(now) && now[j] in multiset(now);
  }

  class Heap {
    const items: array<GridNode?>
    var count: nat

    /** The index invariant: every live slot holds an item whose `heapIndex` is that slot. */
    ghost predicate Valid()
      reads this, items, items[..]`heapIndex
    {
      Indexed(items, count)
    }

    /** The heap order over the live slots. */
    ghost predicate Ordered()
      reads this, items, items[..count]`gCost, items[..count]`hCost
      requires count <= items.Length
    {
      SlotsOrdered(items[..count])
    }

    constructor (maxHeapSize: nat)
      ensures Valid() && Ordered() && count == 0
      ensures fresh(items) && items.Length == maxHeapSize
      ensures forall j :: 0 <= j < maxHeapSize ==> items[j] == null
    {
      items := new GridNode?[maxHeapSize](_ => null);
      count := 0;
    }

    /** Appends the item after the live items and sifts it up. */
    method Add(item: GridNode)
      requires Valid() && Ordered()
      requires count < items.Length
      requires item !in items[..count]
      modifies this, items, items[..count]`heapIndex, item`heapIndex
      ensures Valid() && Ordered()
      ensures count == old(count) + 1
      ensures multiset(items[..count]) == multiset(old(items[..count])) + multiset{item}
      ensures items[count..] == old(items[..])[count..]
    {
      ghost var ks, n := KeysOf(items[..count]), count + 1;
      SlotsOrderedKeys(items[..count], ks);
      PlaceLast(item);
      assert KeysAre(items[..n], ks + [item.Key()]) by {
        assert items[..n] == old(items[..count]) + [item];
      }
      AppendedLeaf(ks, item.Key());
      SortUp(item, n, ks + [item.Key()]);
      Grow();
    }

    /** The last step of Add: the slot the new item was placed in joins the live items. */
    method Grow()
      requires count < items.Length && Indexed(items, count + 1) && SlotsOrdered(items[..count + 1])
      modifies this`count
      ensures count == old(count) + 1 && Valid() && Ordered()
    {
      count := count + 1;
    }

    /** The first two steps of Add: the item goes into the first free slot. */
    method PlaceLast(item: GridNode)
      requires Valid() && count < items.Length && item !in items[..count]
      modifies items, item`heapIndex
      ensures Indexed(items, count + 1) && items[count] == item
      ensures items[..count + 1] == old(items[..count]) + [item]
      ensures items[count + 1..] == old(items[count + 1..])
    {
      item.heapIndex := count;
      items[count] := item;
      assert items[..count + 1] == old(items[..count]) + [item];
    }

    /** Removes and returns the root, moving the last live item into its place and sifting that down. */
    method RemoveFirst() returns (firstItem: GridNode)
      requires Valid() && Ordered() && count > 0
      modifies this, items, items[..count]`heapIndex
      ensures Valid() && Ordered()
      ensures count == old(count) - 1
      ensures firstItem == old(items[0])
      ensures multiset(items[..count]) + multiset{firstItem} == multiset(old(items[..count]))
      ensures firstItem.heapIndex == 0
      ensures items[count..] == old(items[..])[count..]
    {
      ghost var live := items[..count];
      ghost var ks := KeysExist(live);
      SlotsOrderedKeys(live, ks);
      ghost var rest, restKeys := LastToRoot(live), LastToRoot(ks);
      KeysAreLastToRoot(live, ks);
      LastToRootDropsRoot(live);
      LastMovedToRoot(ks);
      RootLeaves(live);
      firstItem := items[0];
      MoveLastToRoot();
      assert KeysAre(items[..count], restKeys) by {
        assert items[..count] == rest;
      }
      SortDown(items[0], restKeys);
    }

    /** The first three steps of RemoveFirst: the last item moves to the root slot. */
    method MoveLastToRoot()
      requires Valid() && count > 0
      modifies this, items, {items[count - 1]}`heapIndex
      ensures Valid()
      ensures count == old(count) - 1
      ensures items[0] == old(items[count - 1]) && items[0].heapIndex == 0
      ensures items[..count] == LastToRoot(old(items[..count]))
      ensures items[count..] == old(items[..])[count..]
    {
      ghost var live := items[..count];
      count := count - 1;
      items[0] := items[count];
      items[0].heapIndex := 0;
      assert items[..count] == LastToRoot(live);
      assert Indexed(items, count) by {
        forall j | 0 < j < count
          ensures items[j] == live[j] && items[j].heapIndex == j
        {
          assert old(live[j].heapIndex) == j;
        }
      }
    }

    /**
     * Re-positions an item whose priority has improved since the heap was last
     * ordered (`before` are the priorities then); it only sifts up.
     */
    method UpdateItem(item: GridNode, ghost before: seq<Priority>)
      requires Valid() && 0 <= item.heapIndex < count && items[item.heapIndex] == item
      requires HeapOrdered(before) && |before| == count
      requires KeysAre(items[..count], before[item.heapIndex := item.Key()])
      requires Compare(item.Key(), before[item.heapIndex]) >= 0
      modifies items, items[..count]`heapIndex
      ensures Valid() && Ordered()
      ensures multiset(items[..count]) == old(multiset(items[..count]))
      ensures items[count..] == old(items[..])[count..]
    {
      ImprovedKey(before, item.heapIndex, item.Key());
      SortUp(item, count, before[item.heapIndex := item.Key()]);
    }

    /** The code's positional membership test: is the item in the slot its `heapIndex` names? */
    function Contains(item: GridNode): (b: bool)
      reads this, items, items[..]`heapIndex, item`heapIndex
      requires 0 <= item.heapIndex < items.Length
      ensures Valid() && item in items[..count] ==> b
      ensures b ==> item in items[..]
    {
      items[item.heapIndex] == item
    }

    /**
     * Moves an item towards the leaves, swapping it with its better child while
     * that child is better; `ks` are the live priorities.
     */
    method SortDown(item: GridNode, ghost ks: seq<Priority>)
      requires Valid() && 0 <= item.heapIndex
      requires item.heapIndex < count ==> items[item.heapIndex] == item
      requires KeysAre(items[..count], ks) && OrderedExceptBelow(ks, item.heapIndex)
      modifies items, items[..count]`heapIndex
      ensures Valid() && Ordered()
      ensures multiset(items[..count]) == old(multiset(items[..count]))
      ensures items[count..] == old(items[..])[count..]
    {
      var n := count;
      ghost var slots := items[..count];
      ghost var cur, live := ks, slots;
      while true
        invariant Indexed(items, n) && 0 <= item.heapIndex
        invariant item.heapIndex < n ==> items[item.heapIndex] == item
        invariant KeysAre(items[..n], cur) && OrderedExceptBelow(cur, item.heapIndex)
        invariant items[..n] == live && multiset(live) == multiset(slots)
        invariant items[n..] == old(items[n..])
        decreases n - item.heapIndex
      {
        var done;
        done, cur, live := SinkStep(item, n, cur, live, slots);
        if done {
          break;
        }
      }
      SlotsOrderedKeys(items[..n], cur);
    }

    /**
     * One round of the `SortDown` loop: picks the better child of the item's
     * slot and swaps the item with it when it is better than the item;
     * `done` when there is no child or the child is no better.
     */
    method SinkStep(item: GridNode, n: int, ghost cur: seq<Priority>, ghost live: seq<GridNode?>,
                    ghost slots: seq<GridNode?>)
      returns (done: bool, ghost cur': seq<Priority>, ghost live': seq<GridNode?>)
      requires Indexed(items, n) && 0 <= item.heapIndex
      requires item.heapIndex < n ==> items[item.heapIndex] == item
      requires KeysAre(items[..n], cur) && OrderedExceptBelow(cur, item.heapIndex)
      requires items[..n] == live && multiset(live) == multiset(slots)
      modifies items, slots`heapIndex
      ensures Indexed(items, n) && 0 <= item.heapIndex
      ensures item.heapIndex < n ==> items[item.heapIndex] == item
      ensures KeysAre(items[..n], cur') && OrderedExceptBelow(cur', item.heapIndex)
      ensures items[..n] == live' && multiset(live') == multiset(slots)
      ensures items[n..] == old(items[n..])
      ensures done ==> HeapOrdered(cur')
      ensures !done ==> old(item.heapIndex) < item.heapIndex < n
    {
      cur', live' := cur, live;
      var childIndexLeft := item.heapIndex * 2 + 1;
      ghost var k := item.heapIndex;
      var childIndexRight := item.heapIndex * 2 + 2;
      if childIndexLeft < n {
        var swapIndex := childIndexLeft;
        assert items[childIndexLeft].Key() == cur[childIndexLeft];
        if childIndexRight < n {
          assert items[childIndexRight].Key() == cur[childIndexRight];
          if items[childIndexLeft].CompareTo(items[childIndexRight]) < 0 {
            swapIndex := childIndexRight;
          }
        }
        assert ChosenChild(cur, k, swapIndex);
        assert item.Key() == cur[k] && items[swapIndex].Key() == cur[swapIndex];
        if item.CompareTo(items[swapIndex]) < 0 {
          SiftDownStep(cur, k, swapIndex);
          InOldSlots(live, slots, k, swapIndex);
          Swap(item, items[swapIndex], n, cur);
          assert item.heapIndex == swapIndex;
          cur', live' := Swapped(cur, k, swapIndex), Swapped(live, k, swapIndex);
          done := false;
        } else {
          SiftDownDone(cur, k, swapIndex);
          done := true;
        }
      } else {
        SiftDownAtLeaf(cur, k);
        done := true;
      }
    }

    /**
     * Moves an item towards the root, swapping it with its parent while it is
     * better than that parent; `ks` are the priorities of slots [0, n).
     */
    method SortUp(item: GridNode, ghost n: int, ghost ks: seq<Priority>)
      requires Indexed(items, n) && 0 <= item.heapIndex < n && items[item.heapIndex] == item
      requires KeysAre(items[..n], ks) && OrderedExceptAbove(ks, item.heapIndex)
      modifies items, items[..n]`heapIndex
      ensures Indexed(items, n) && SlotsOrdered(items[..n])
      ensures multiset(items[..n]) == old(multiset(items[..n]))
      ensures items[n..] == old(items[n..])
    {
      var parentIndex := Parent(item.heapIndex);
      ghost var slots := items[..n];
      ghost var cur, live := ks, slots;
      while true
        invariant Indexed(items, n) && 0 <= item.heapIndex < n && items[item.heapIndex] == item
        invariant parentIndex == Parent(item.heapIndex)
        invariant KeysAre(items[..n], cur) && OrderedExceptAbove(cur, item.heapIndex)
        invariant items[..n] == live && multiset(live) == multiset(slots)
        invariant items[n..] == old(items[n..])
        decreases item.heapIndex
      {
        ParentOfSlot(item.heapIndex);
        var parentItem := items[parentIndex];
        ghost var k := item.heapIndex;
        if item.CompareTo(parentItem) > 0 {
          SiftUpStep(cur, k);
          InOldSlots(live, slots, k, parentIndex);
          Swap(item, parentItem, n, cur);
          cur, live := Swapped(cur, k, parentIndex), Swapped(live, k, parentIndex);
        } else {
          SiftUpDone(cur, k);
          SlotsOrderedKeys(items[..n], cur);
          break;
        }
        parentIndex := Parent(item.heapIndex);
      }
    }

    /** Exchanges the two items' slots and their `heapIndex` values together; `ks` are the priorities of slots [0, n). */
    method Swap(itemA: GridNode, itemB: GridNode, ghost n: int, ghost ks: seq<Priority>)
      requires Indexed(items, n) && KeysAre(items[..n], ks)
      requires 0 <= itemA.heapIndex < n && items[itemA.heapIndex] == itemA
      requires 0 <= itemB.heapIndex < n && items[itemB.heapIndex] == itemB
      modifies items, itemA`heapIndex, itemB`heapIndex
      ensures Indexed(items, n)
      ensures itemA.heapIndex == old(itemB.heapIndex) && itemB.heapIndex == old(itemA.heapIndex)
      ensures items[itemA.heapIndex] == itemA && items[itemB.heapIndex] == itemB
      ensures items[..n] == Swapped(old(items[..n]), old(itemA.heapIndex), old(itemB.heapIndex))
      ensures KeysAre(items[..n], Swapped(ks, old(itemA.heapIndex), old(itemB.heapIndex)))
      ensures multiset(items[..n]) == old(multiset(items[..n]))
      ensures items[n..] == old(items[n..])
    {
      ghost var s, i, j := items[..n], itemA.heapIndex, itemB.heapIndex;
      items[itemA.heapIndex] := itemB;
      items[itemB.heapIndex] := itemA;
      itemA.heapIndex, itemB.heapIndex := itemB.heapIndex, itemA.heapIndex;
      assert items[..n] == Swapped(s, i, j);
    }
  }

  /** A popped item keeps its slot and index, so the positional test still reports it. */
  method PoppedSoleItemStillContained() returns (stale: bool, live: nat)
    ensures stale && live == 0
  {
    var node := new GridNode(true, 0, 0, 0);
    var heap := new Heap(1);
    heap.Add(node);
    assert heap.items[..heap.count] == [heap.items[0]];
    assert heap.items[0] in multiset{node};
    var popped := heap.RemoveFirst();
    live := heap.count;
    stale := heap.Contains(node);
  }
}
