/**
 The binary heap (src/util/heap.c): an array in which no element is smaller than its parent.
 */
module Heaps {
  import opened Options

  type Comparator<!T> = (T, T) -> int

  /** What a comparator passed to heap_create has to be: a total preorder. */
  ghost predicate IsOrder<T(!new)>(compare: Comparator<T>) {
    && (forall a, b :: compare(a, b) < 0 <==> compare(b, a) > 0)
    && (forall a, b, c :: compare(a, b) <= 0 && compare(b, c) <= 0 ==> compare(a, c) <= 0)
  }

  function Parent(i: nat): nat
    requires i > 0
  {
    (i - 1) / 2
  }

  /** The element at k is no smaller than its parent. */
  ghost predicate InOrder<T(!new)>(compare: Comparator<T>, h: seq<T>, k: nat)
    requires 0 < k < |h|
  {
    compare(h[Parent(k)], h[k]) <= 0
  }

  ghost predicate IsHeap<T(!new)>(compare: Comparator<T>, h: seq<T>) {
    forall k :: 0 < k < |h| ==> InOrder(compare, h, k)
  }

  /** Every pair is in order except those i belongs to, and around i the grandparents are in order. */
  ghost predicate IsHeapAround<T(!new)>(compare: Comparator<T>, h: seq<T>, i: nat) {
    && (forall k :: 0 < k < |h| && k != i && Parent(k) != i ==> InOrder(compare, h, k))
    && (forall k :: 0 < k < |h| && Parent(k) == i > 0 ==> compare(h[Parent(i)], h[k]) <= 0)
  }

  /** The pair of i and its parent is the only one that may be out of order. */
  ghost predicate IsHeapAbove<T(!new)>(compare: Comparator<T>, h: seq<T>, i: nat) {
    && IsHeapAround(compare, h, i)
    && forall k :: 0 < k < |h| && Parent(k) == i ==> InOrder(compare, h, k)
  }

  /** Only pairs of i and one of its children may be out of order. */
  ghost predicate IsHeapBelow<T(!new)>(compare: Comparator<T>, h: seq<T>, i: nat) {
    && IsHeapAround(compare, h, i)
    && (0 < i < |h| ==> InOrder(compare, h, i))
  }

  function Swapped<T>(h: seq<T>, a: nat, b: nat): (r: seq<T>)
    requires a < |h| && b < |h|
    ensures |r| == |h|
    ensures multiset(r) == multiset(h)
  {
    h[a := h[b]][b := h[a]]
  }

  lemma SwapWithParent<T(!new)>(compare: Comparator<T>, h: seq<T>, i: nat)
    requires IsOrder(compare) && 0 < i < |h| && IsHeapAround(compare, h, i)
    ensures IsHeapAround(compare, Swapped(h, Parent(i), i), Parent(i))
  {
    var p, g := Parent(i), Swapped(h, Parent(i), i);
    forall k | 0 < k < |g| && k != p && Parent(k) != p
      ensures InOrder(compare, g, k)
    {
      assert Parent(k) != i ==> InOrder(compare, h, k);
    }
    if p > 0 {
      assert InOrder(compare, h, p);
      forall k | 0 < k < |g| && Parent(k) == p
        ensures compare(g[Parent(p)], g[k]) <= 0
      {
        assert k != i ==> InOrder(compare, h, k);
      }
    }
  }

  /** In a heap out of order only above i, moving a smaller i up moves the disorder up. */
  lemma ShiftUpStep<T(!new)>(compare: Comparator<T>, h: seq<T>, i: nat)
    requires IsOrder(compare) && 0 < i < |h| && IsHeapAbove(compare, h, i)
    requires compare(h[i], h[Parent(i)]) < 0
    ensures IsHeapAbove(compare, Swapped(h, Parent(i), i), Parent(i))
  {
    SwapWithParent(compare, h, i);
    var p, g := Parent(i), Swapped(h, Parent(i), i);
    forall k | 0 < k < |g| && Parent(k) == p
      ensures InOrder(compare, g, k)
    {
      assert k != i ==> InOrder(compare, h, k);
    }
  }

  /** Moving the smallest child c of i up moves the disorder down. */
  lemma ShiftDownStep<T(!new)>(compare: Comparator<T>, h: seq<T>, i: nat, c: nat)
    requires IsOrder(compare) && i < c < |h| && Parent(c) == i && IsHeapBelow(compare, h, i)
    requires forall k :: i < k < |h| && Parent(k) == i ==> compare(h[c], h[k]) <= 0
    requires compare(h[c], h[i]) < 0
    ensures IsHeapBelow(compare, Swapped(h, i, c), c)
  {
    var g := Swapped(h, i, c);
    forall k | 0 < k < |g| && Parent(k) != c
      ensures InOrder(compare, g, k)
    {
      assert k != i && Parent(k) != i ==> InOrder(compare, h, k);
    }
    forall k | 0 < k < |g| && Parent(k) == c
      ensures compare(g[i], g[k]) <= 0
    {
      assert InOrder(compare, h, k);
    }
  }

  /** The one of i and its children that shift_down brings up. */
  function Smallest<T>(compare: Comparator<T>, h: seq<T>, i: nat): nat {
    var l, r := 2 * i + 1, 2 * i + 2;
    var m := if l < |h| && compare(h[l], h[i]) < 0 then l else i;
    if r < |h| && compare(h[r], h[m]) < 0 then r else m
  }

  lemma SmallestIsLeast<T(!new)>(compare: Comparator<T>, h: seq<T>, i: nat)
    requires IsOrder(compare)
    ensures var m := Smallest(compare, h, i);
            && (m != i ==> i < m < |h| && Parent(m) == i && compare(h[m], h[i]) < 0)
            && forall k :: 0 < k < |h| && Parent(k) == i ==> compare(h[m], h[k]) <= 0
  {
    forall k | 0 < k < |h| && Parent(k) == i
      ensures compare(h[Smallest(compare, h, i)], h[k]) <= 0
    {
      assert k == 2 * i + 1 || k == 2 * i + 2;
      assert compare(h[k], h[k]) < 0 <==> compare(h[k], h[k]) > 0;
    }
  }

  /** One round of shift_down: either the heap is in order, or the disorder moves below the swapped child. */
  lemma ShiftDownRound<T(!new)>(compare: Comparator<T>, h: seq<T>, i: nat)
    requires IsOrder(compare) && IsHeapBelow(compare, h, i)
    ensures var m := Smallest(compare, h, i);
            if m == i then IsHeap(compare, h)
            else i < m < |h| && IsHeapBelow(compare, Swapped(h, i, m), m)
  {
    SmallestIsLeast(compare, h, i);
    var m := Smallest(compare, h, i);
    if m != i {
      ShiftDownStep(compare, h, i, m);
    }
  }

  lemma HeapIsAround<T(!new)>(compare: Comparator<T>, h: seq<T>, i: nat)
    requires IsOrder(compare) && IsHeap(compare, h) && i < |h|
    ensures IsHeapAround(compare, h, i)
  {
    forall k | 0 < k < |h| && Parent(k) == i > 0
      ensures compare(h[Parent(i)], h[k]) <= 0
    {
      assert InOrder(compare, h, k) && InOrder(compare, h, i);
    }
  }

  lemma AppendIsHeapAbove<T(!new)>(compare: Comparator<T>, h: seq<T>, e: T)
    requires IsHeap(compare, h)
    ensures IsHeapAbove(compare, h + [e], |h|)
  {
    forall k | 0 < k < |h|
      ensures InOrder(compare, h + [e], k)
    {
      assert InOrder(compare, h, k);
    }
  }

  /** The root of a heap is a least element. */
  lemma {:induction false} RootIsLeast<T(!new)>(compare: Comparator<T>, h: seq<T>, k: nat)
    requires IsOrder(compare) && IsHeap(compare, h) && k < |h|
    ensures compare(h[0], h[k]) <= 0
  {
    if k == 0 {
      assert compare(h[0], h[0]) < 0 <==> compare(h[0], h[0]) > 0;
    } else {
      RootIsLeast(compare, h, Parent(k));
      assert InOrder(compare, h, k);
    }
  }

  // ---------- the heap ----------

  const HEAP_DEFAULT_CAPACITY := 4

  class Heap<T(0,!new)> {
    var data: array<T>
    var size: nat
    const compare: Comparator<T>

    ghost function Elements(): (h: seq<T>)
      requires size <= data.Length
      reads this, data
      ensures |h| == size
    {
      data[..size]
    }

    ghost predicate Valid()
      reads this, data
    {
      && IsOrder(compare)
      && size <= data.Length && data.Length >= HEAP_DEFAULT_CAPACITY
      && IsHeap(compare, Elements())
    }

    constructor (compare: Comparator<T>)
      requires IsOrder(compare)
      ensures Valid() && fresh(data) && Elements() == [] && this.compare == compare
    {
      data := new T[HEAP_DEFAULT_CAPACITY];
      size := 0;
      this.compare := compare;
    }

    method SwapElement(a: nat, b: nat)
      requires a < size && b < size && size <= data.Length
      modifies data
      ensures Elements() == Swapped(old(Elements()), a, b)
    {
      data[a], data[b] := data[b], data[a];
    }

    method MoveToTop(start: nat)
      requires Valid() && start < size
      modifies data
      ensures IsHeapAround(compare, Elements(), 0)
      ensures Elements()[0] == old(Elements()[start])
      ensures multiset(Elements()) == old(multiset(Elements()))
    {
      var i: nat := start;
      HeapIsAround(compare, Elements(), i);
      while i > 0
        invariant i < size
        invariant IsHeapAround(compare, Elements(), i)
        invariant Elements()[i] == old(Elements()[start])
        invariant multiset(Elements()) == old(multiset(Elements()))
      {
        SwapWithParent(compare, Elements(), i);
        SwapElement(Parent(i), i);
        i := Parent(i);
      }
    }

    method ShiftUp(start: nat)
      requires IsOrder(compare) && start < size <= data.Length
      requires IsHeapAbove(compare, Elements(), start)
      modifies data
      ensures IsHeap(compare, Elements())
      ensures multiset(Elements()) == old(multiset(Elements()))
    {
      var i: nat := start;
      while i > 0 && compare(data[i], data[Parent(i)]) < 0
        invariant i < size
        invariant IsHeapAbove(compare, Elements(), i)
        invariant multiset(Elements()) == old(multiset(Elements()))
      {
        ShiftUpStep(compare, Elements(), i);
        SwapElement(Parent(i), i);
        i := Parent(i);
      }
    }

    method ShiftDown(i: nat)
      requires IsOrder(compare) && size <= data.Length && (i < size || size == 0)
      requires IsHeapBelow(compare, Elements(), i)
      modifies data
      ensures IsHeap(compare, Elements())
      ensures multiset(Elements()) == old(multiset(Elements()))
      decreases size - i
    {
      ShiftDownRound(compare, Elements(), i);
      var maxI := MinOfThree(i);
      if i != maxI {
        SwapElement(i, maxI);
        ShiftDown(maxI);
      }
    }

    method MinOfThree(i: nat) returns (maxI: nat)
      requires size <= data.Length
      ensures maxI == Smallest(compare, Elements(), i)
    {
      maxI := i;
      var l := 2 * i + 1;
      if l < size && compare(data[l], data[maxI]) < 0 {
        maxI := l;
      }
      var r := 2 * i + 2;
      if r < size && compare(data[r], data[maxI]) < 0 {
        maxI := r;
      }
    }

    method Add(e: T)
      requires Valid()
      modifies this`data, this`size, data
      ensures Valid() && (data == old(data) || fresh(data))
      ensures multiset(Elements()) == old(multiset(Elements())) + multiset{e}
    {
      if size == data.Length {
        Grow();
      }
      ghost var before := Elements();
      data[size] := e;
      size := size + 1;
      assert Elements() == before + [e];
      AppendIsHeapAbove(compare, before, e);
      ShiftUp(size - 1);
    }

    /** realloc to twice the capacity. */
    method Grow()
      requires Valid()
      modifies this`data
      ensures fresh(data) && data.Length == 2 * old(data.Length)
      ensures Valid() && Elements() == old(Elements())
    {
      var bigger := new T[2 * data.Length];
      forall i | 0 <= i < size {
        bigger[i] := data[i];
      }
      data := bigger;
      assert Elements() == old(Elements());
    }

    method Top() returns (top: Option<T>)
      requires Valid()
      ensures top == if size == 0 then None else Some(Elements()[0])
      ensures top.Some? ==> forall e :: e in Elements() ==> compare(top.value, e) <= 0
    {
      if size == 0 {
        return None;
      }
      forall k | 0 <= k < size
        ensures compare(Elements()[0], Elements()[k]) <= 0
      {
        RootIsLeast(compare, Elements(), k);
      }
      top := Some(data[0]);
    }

    /** Works on any heap that is out of order only around its root, as heap_remove needs. */
    method PopRoot() returns (e: T)
      requires IsOrder(compare) && 0 < size <= data.Length && IsHeapAround(compare, Elements(), 0)
      modifies this`size, data
      ensures e == old(Elements()[0])
      ensures size == old(size) - 1 && IsHeap(compare, Elements())
      ensures old(multiset(Elements())) == multiset(Elements()) + multiset{e}
    {
      ghost var before := Elements();
      e := data[0];
      size := size - 1;
      data[0] := data[size];
      LastToTop(before);
      assert Elements() == before[0 := before[size]][..size];
      ShiftDown(0);
    }

    method Pop() returns (e: Option<T>)
      requires Valid()
      modifies this`size, data
      ensures Valid()
      ensures e == if old(size) == 0 then None else Some(old(Elements()[0]))
      ensures e.Some? ==> PopStep(compare, old(Elements()), e.value, Elements())
      ensures e.None? ==> Elements() == old(Elements()) == []
    {
      if size == 0 {
        return None;
      }
      var root := PopRoot();
      e := Some(root);
    }

    method Remove(i: nat) returns (e: T)
      requires Valid() && i < size
      modifies this`size, data
      ensures Valid()
      ensures e == old(Elements()[i])
      ensures old(multiset(Elements())) == multiset(Elements()) + multiset{e}
    {
      MoveToTop(i);
      e := PopRoot();
    }
  }

  lemma LastToTop<T>(h: seq<T>)
    requires h != []
    ensures var n := |h| - 1;
            multiset(h) == multiset(h[0 := h[n]][..n]) + multiset{h[0]}
  {
    var n := |h| - 1;
    assert h == h[..n] + [h[n]];
    if n > 0 {
      assert h[..n] == [h[0]] + h[1..n];
      assert h[0 := h[n]][..n] == [h[n]] + h[1..n];
    }
  }

  // ---------- popping everything ----------

  /** One heap_pop: the root goes, and a heap of the remaining elements stays. */
  ghost predicate PopStep<T(!new)>(compare: Comparator<T>, before: seq<T>, e: T, after: seq<T>) {
    && before != [] && e == before[0]
    && multiset(before) == multiset(after) + multiset{e}
    && IsHeap(compare, after)
  }

  ghost predicate PopTrace<T(!new)>(compare: Comparator<T>, states: seq<seq<T>>, popped: seq<T>) {
    && |states| == |popped| + 1
    && IsHeap(compare, states[0])
    && forall i :: 0 <= i < |popped| ==> PopStep(compare, states[i], popped[i], states[i + 1])
  }

  ghost predicate Sorted<T(!new)>(compare: Comparator<T>, s: seq<T>) {
    forall i, j :: 0 <= i < j < |s| ==> compare(s[i], s[j]) <= 0
  }

  /** Popping until nothing is left yields the contents in order. */
  lemma {:induction false} PopsAreSorted<T(!new)>(compare: Comparator<T>, states: seq<seq<T>>, popped: seq<T>)
    requires IsOrder(compare) && PopTrace(compare, states, popped) && states[|popped|] == []
    ensures Sorted(compare, popped)
    ensures multiset(popped) == multiset(states[0])
    decreases |popped|
  {
    if popped != [] {
      var e, rest := popped[0], popped[1..];
      assert PopStep(compare, states[0], e, states[1]);
      TraceTail(compare, states, popped);
      PopsAreSorted(compare, states[1..], rest);
      assert popped == [e] + rest;
      forall x | x in rest
        ensures compare(e, x) <= 0
      {
        assert x in multiset(rest);
        RemainingIsNoLess(compare, states[0], x);
      }
      SortedFromLeast(compare, e, rest);
    }
  }

  lemma SortedFromLeast<T(!new)>(compare: Comparator<T>, e: T, rest: seq<T>)
    requires Sorted(compare, rest) && forall x :: x in rest ==> compare(e, x) <= 0
    ensures Sorted(compare, [e] + rest)
  {
  }

  lemma TraceTail<T(!new)>(compare: Comparator<T>, states: seq<seq<T>>, popped: seq<T>)
    requires PopTrace(compare, states, popped) && popped != []
    ensures PopTrace(compare, states[1..], popped[1..])
  {
    assert PopStep(compare, states[0], popped[0], states[1]);
    forall i | 0 <= i < |popped[1..]|
      ensures PopStep(compare, states[1..][i], popped[1..][i], states[1..][i + 1])
    {
      assert PopStep(compare, states[i + 1], popped[i + 1], states[i + 2]);
    }
  }

  lemma RemainingIsNoLess<T(!new)>(compare: Comparator<T>, h: seq<T>, x: T)
    requires IsOrder(compare) && IsHeap(compare, h) && x in multiset(h)
    ensures compare(h[0], x) <= 0
  {
    var k :| 0 <= k < |h| && h[k] == x;
    RootIsLeast(compare, h, k);
  }
}
