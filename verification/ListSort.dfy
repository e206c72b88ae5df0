/** The bubble sorts of `Warmup Assignment 1/listtest.c`, which swap two objects by unlinking their elements and
    linking new ones in. */
module ListSort {
  import opened RingList

  // Two elements taken out and put back the other way round.
  lemma SwapIs<T>(s: seq<T>, i: nat, j: nat, x: T, y: T)
    requires i < j < |s|
    ensures Inserted(Inserted(Removed(Removed(s, i), j - 1), i, y), j, x) == s[i := y][j := x]
  {
    var a := Removed(s, i);
    var b := Removed(a, j - 1);
    var c := Inserted(b, i, y);
    var d := Inserted(c, j, x);
    RemovedAt(s, i, a);
    RemovedAt(a, j - 1, b);
    InsertedAt(b, i, y, c);
    InsertedAt(c, j, x, d);
    assert |d| == |s|;
    forall k | 0 <= k < |s| ensures d[k] == s[i := y][j := x][k] {
    }
  }

  lemma SwapBackIs<T>(s: seq<T>, i: nat, j: nat, x: T, y: T)
    requires i < j < |s|
    ensures Inserted(Inserted(Removed(Removed(s, j), i), j - 1, x), i, y) == s[i := y][j := x]
  {
    var a := Removed(s, j);
    var b := Removed(a, i);
    var c := Inserted(b, j - 1, x);
    var d := Inserted(c, i, y);
    RemovedAt(s, j, a);
    RemovedAt(a, i, b);
    InsertedAt(b, j - 1, x, c);
    InsertedAt(c, i, y, d);
    assert |d| == |s|;
    forall k | 0 <= k < |s| ensures d[k] == s[i := y][j := x][k] {
    }
  }

  function Swapped(c: seq<int>, i: nat, j: nat): seq<int>
    requires i < j < |c|
  {
    c[i := c[j]][j := c[i]]
  }

  lemma SwappedIs(c: seq<int>, i: nat, j: nat)
    requires i < j < |c|
    ensures Swapped(c, i, j) == c[i := c[j]][j := c[i]]
  {
  }

  // Links an object in after an element, or at the front, and finds its new element.
  method PutAfter(list: List, obj: int, prev: Elem?, ghost i: nat) returns (e: Elem)
    requires list.Valid() && 0 < i <= |list.ring| && prev == (if i == 1 then null else list.ring[i - 1])
    modifies list, list.ring
    ensures list.Valid() && fresh(e) && list.ring == Inserted(old(list.ring), i, e)
    ensures list.Contents() == Inserted(old(list.Contents()), i - 1, obj)
  {
    hide IsRing, Inserted, Objects;
    ghost var r := list.ring;
    var ok, n;
    if prev == null {
      ok := list.Prepend(obj, true);
      InsertedAt(r, i, list.ring[i], list.ring);
      n := list.First();
    } else {
      ok := list.InsertAfter(obj, prev, true, i - 1);
      InsertedAt(r, i, list.ring[i], list.ring);
      n := list.Next(prev, i - 1);
    }
    e := n;
  }

  // Links an object in before an element, or at the end, and finds its new element.
  method PutBefore(list: List, obj: int, next: Elem?, ghost i: nat) returns (e: Elem)
    requires list.Valid() && 0 < i <= |list.ring| && next == (if i == |list.ring| then null else list.ring[i])
    modifies list, list.ring
    ensures list.Valid() && fresh(e) && list.ring == Inserted(old(list.ring), i, e)
    ensures list.Contents() == Inserted(old(list.Contents()), i - 1, obj)
  {
    hide IsRing, Inserted, Objects;
    ghost var r := list.ring;
    var ok, n;
    if next == null {
      ok := list.Append(obj, true);
      InsertedAt(r, i, list.ring[|list.ring| - 1], list.ring);
      n := list.Last();
    } else {
      ok := list.InsertBefore(obj, next, true, i);
      InsertedAt(r, i, list.ring[i], list.ring);
      n := list.Prev(next, i + 1);
    }
    e := n;
  }

  // Unlinks elem1 at k1, and then elem2 at k2 of what is left.
  method UnlinkBoth(list: List, elem1: Elem, elem2: Elem, ghost k1: nat, ghost k2: nat)
    requires list.Valid() && 0 < k1 < |list.ring| && list.ring[k1] == elem1
    requires 0 < k2 < |list.ring| - 1 && Removed(list.ring, k1)[k2] == elem2
    modifies list, list.ring
    ensures list.Valid() && list.ring == Removed(Removed(old(list.ring), k1), k2)
    ensures list.Contents() == Removed(Removed(old(list.Contents()), k1 - 1), k2 - 1)
  {
    hide IsRing, Removed, Objects;
    ghost var r := list.ring;
    list.Unlink(elem1, k1);
    RemovedAt(r, k1, list.ring);
    list.Unlink(elem2, k2);
  }

  // BubbleForward: the objects of the elements at i and j of the ring change places.
  method BubbleForward(list: List, elem1: Elem, elem2: Elem, ghost i: nat, ghost j: nat) returns (e1: Elem, e2: Elem)
    requires list.Valid() && 0 < i < j < |list.ring| && list.ring[i] == elem1 && list.ring[j] == elem2
    modifies list, list.ring
    ensures list.Valid() && fresh(e1) && fresh(e2) && list.ring == old(list.ring)[i := e1][j := e2]
    ensures list.Contents() == Swapped(old(list.Contents()), i - 1, j - 1)
  {
    hide IsRing, Inserted, Removed, Objects, Swapped;
    ghost var r, c := list.ring, list.Contents();
    var obj1, obj2 := elem1.obj, elem2.obj;
    assert c[i - 1] == r[i].obj && c[j - 1] == r[j].obj by {
      ObjectsAt(r, c);
    }
    var elem1prev := list.Prev(elem1, i);
    var elem2next := list.Next(elem2, j);
    RemovedAt(r, i, Removed(r, i));
    UnlinkBoth(list, elem1, elem2, i, j - 1);
    ghost var r2 := list.ring;
    RemovedAt(Removed(r, i), j - 1, r2);
    e1 := PutAfter(list, obj2, elem1prev, i);
    InsertedAt(r2, i, e1, list.ring);
    e2 := PutBefore(list, obj1, elem2next, j);
    SwapIs(r, i, j, e2, e1);
    SwapIs(c, i - 1, j - 1, obj1, obj2);
    SwappedIs(c, i - 1, j - 1);
  }

  // BubbleBackward: the same, with the element that is closer to the end first.
  method BubbleBackward(list: List, elem1: Elem, elem2: Elem, ghost j: nat, ghost i: nat) returns (e1: Elem, e2: Elem)
    requires list.Valid() && 0 < i < j < |list.ring| && list.ring[j] == elem1 && list.ring[i] == elem2
    modifies list, list.ring
    ensures list.Valid() && fresh(e1) && fresh(e2) && list.ring == old(list.ring)[i := e2][j := e1]
    ensures list.Contents() == Swapped(old(list.Contents()), i - 1, j - 1)
  {
    hide IsRing, Inserted, Removed, Objects, Swapped;
    ghost var r, c := list.ring, list.Contents();
    var obj1, obj2 := elem1.obj, elem2.obj;
    assert c[i - 1] == r[i].obj && c[j - 1] == r[j].obj by {
      ObjectsAt(r, c);
    }
    var elem1next := list.Next(elem1, j);
    var elem2prev := list.Prev(elem2, i);
    RemovedAt(r, j, Removed(r, j));
    UnlinkBoth(list, elem1, elem2, j, i);
    ghost var r2 := list.ring;
    RemovedAt(Removed(r, j), i, r2);
    e1 := PutBefore(list, obj2, elem1next, j - 1);
    InsertedAt(r2, j - 1, e1, list.ring);
    e2 := PutAfter(list, obj1, elem2prev, i);
    SwapBackIs(r, i, j, e1, e2);
    SwapBackIs(c, i - 1, j - 1, obj2, obj1);
    SwappedIs(c, i - 1, j - 1);
  }

  // ---------------------------------------------------------------------------------------------
  // Sorting

  ghost predicate Ascending(c: seq<int>, lo: int, hi: int) {
    0 <= lo && hi <= |c| && forall x, y :: lo <= x < y < hi ==> c[x] <= c[y]
  }

  // The part from m on is in its final place.
  ghost predicate SortedFrom(c: seq<int>, m: int) {
    0 <= m <= |c| && Ascending(c, m, |c|) && forall x, y :: 0 <= x < m <= y < |c| ==> c[x] <= c[y]
  }

  ghost predicate SortedUpTo(c: seq<int>, m: int) {
    0 <= m <= |c| && Ascending(c, 0, m) && forall x, y :: 0 <= x < m <= y < |c| ==> c[x] <= c[y]
  }

  // While a forward round stands at j: c[j] is the greatest so far.
  ghost predicate RoundUp(c: seq<int>, m: int, j: int, swapped: bool) {
    && SortedFrom(c, m) && 0 <= j < m && (forall x :: 0 <= x < j ==> c[x] <= c[j])
    && (!swapped ==> Ascending(c, 0, j + 1))
  }

  // While a backward round stands at j: c[j] is the least so far.
  ghost predicate RoundDown(c: seq<int>, m: int, j: int, swapped: bool) {
    && SortedUpTo(c, m) && m <= j < |c| && (forall x :: j < x < |c| ==> c[j] <= c[x])
    && (!swapped ==> Ascending(c, j, |c|))
  }

  lemma SwapKeepsObjects(c: seq<int>, i: nat, j: nat)
    requires i < j < |c|
    ensures multiset(Swapped(c, i, j)) == multiset(c)
  {
  }

  lemma SwappedAt(c: seq<int>, i: nat, r: seq<int>)
    requires i + 1 < |c| && r == Swapped(c, i, i + 1)
    ensures |r| == |c| && multiset(r) == multiset(c)
    ensures forall x {:trigger r[x]} :: 0 <= x < |c| ==> r[x] == if x == i then c[i + 1] else if x == i + 1 then c[i] else c[x]
  {
    SwapKeepsObjects(c, i, i + 1);
  }

  lemma StepUp(c: seq<int>, m: int, j: int, swapped: bool, c': seq<int>)
    requires RoundUp(c, m, j, swapped) && j + 1 < m
    requires c' == if c[j] > c[j + 1] then Swapped(c, j, j + 1) else c
    ensures RoundUp(c', m, j + 1, swapped || c[j] > c[j + 1]) && multiset(c') == multiset(c) && |c'| == |c|
  {
    hide Swapped;
    if c[j] > c[j + 1] {
      SwappedAt(c, j, c');
    }
  }

  lemma StepDown(c: seq<int>, m: int, j: int, swapped: bool, c': seq<int>)
    requires RoundDown(c, m, j, swapped) && m <= j - 1
    requires c' == if c[j] < c[j - 1] then Swapped(c, j - 1, j) else c
    ensures RoundDown(c', m, j - 1, swapped || c[j] < c[j - 1]) && multiset(c') == multiset(c) && |c'| == |c|
  {
    hide Swapped;
    if c[j] < c[j - 1] {
      SwappedAt(c, j - 1, c');
    }
  }

  lemma EndUp(c: seq<int>, m: int, swapped: bool)
    requires RoundUp(c, m, m - 1, swapped)
    ensures SortedFrom(c, m - 1) && (!swapped ==> SortedFrom(c, 0))
  {
  }

  lemma EndDown(c: seq<int>, m: int, swapped: bool)
    requires RoundDown(c, m, m, swapped) && m < |c|
    ensures SortedUpTo(c, m + 1) && (!swapped ==> SortedUpTo(c, |c|))
  {
  }

  // One round of the forward sort, over the first m objects.
  method RoundForward(list: List, m: nat) returns (somethingSwapped: bool)
    requires list.Valid() && 0 < m <= |list.Contents()| && SortedFrom(list.Contents(), m)
    modifies list, list.ring
    ensures list.Valid() && |list.Contents()| == old(|list.Contents()|)
    ensures forall k :: 0 <= k < |list.ring| ==> list.ring[k] in old(list.ring) || fresh(list.ring[k])
    ensures multiset(list.Contents()) == multiset(old(list.Contents()))
    ensures SortedFrom(list.Contents(), m - 1) && (!somethingSwapped ==> SortedFrom(list.Contents(), 0))
  {
    hide IsRing, Objects, Swapped, SortedFrom, RoundUp;
    somethingSwapped := false;
    var first := list.First();
    var elem: Elem := first;
    StartUp(list.Contents(), m);
    for j := 0 to m - 1
      invariant list.Valid() && |list.Contents()| == old(|list.Contents()|)
      invariant multiset(list.Contents()) == multiset(old(list.Contents()))
      invariant elem == list.ring[j + 1] && RoundUp(list.Contents(), m, j, somethingSwapped)
      invariant forall k :: 0 <= k < |list.ring| ==> list.ring[k] in old(list.ring) || fresh(list.ring[k])
    {
      ghost var c, swapped := list.Contents(), somethingSwapped;
      var nextElem := list.Next(elem, j + 1);
      assert elem.obj == c[j] && nextElem.obj == c[j + 1] by {
        ObjectsAt(list.ring, c);
      }
      if elem.obj > nextElem.obj {
        var e1, e2 := BubbleForward(list, elem, nextElem, j + 1, j + 2);
        nextElem := e2;
        somethingSwapped := true;
      }
      StepUp(c, m, j, swapped, list.Contents());
      elem := nextElem;
    }
    EndUp(list.Contents(), m, somethingSwapped);
  }

  /** BubbleSortForwardList: the list ends up in ascending order, with the same objects. */
  method BubbleSortForward(list: List, numItems: nat)
    requires list.Valid() && |list.Contents()| == numItems
    modifies list, list.ring
    ensures list.Valid() && Ascending(list.Contents(), 0, numItems) && |list.Contents()| == numItems
    ensures multiset(list.Contents()) == multiset(old(list.Contents()))
  {
    hide IsRing, Objects, SortedFrom;
    SortedAtEnd(list.Contents());
    for i := 0 to numItems
      invariant list.Valid() && |list.Contents()| == numItems
      invariant multiset(list.Contents()) == multiset(old(list.Contents()))
      invariant SortedFrom(list.Contents(), numItems - i)
      invariant forall k :: 0 <= k < |list.ring| ==> list.ring[k] in old(list.ring) || fresh(list.ring[k])
    {
      var somethingSwapped := RoundForward(list, numItems - i);
      if !somethingSwapped {
        SortedIs(list.Contents());
        return;
      }
    }
    SortedIs(list.Contents());
  }

  lemma SortedAtEnd(c: seq<int>)
    ensures SortedFrom(c, |c|) && SortedUpTo(c, 0)
  {
  }

  lemma SortedIs(c: seq<int>)
    ensures SortedFrom(c, 0) || SortedUpTo(c, |c|) ==> Ascending(c, 0, |c|)
  {
  }

  lemma StartUp(c: seq<int>, m: int)
    requires SortedFrom(c, m) && m > 0
    ensures RoundUp(c, m, 0, false)
  {
  }

  lemma StartDown(c: seq<int>, m: int)
    requires SortedUpTo(c, m) && m < |c|
    ensures RoundDown(c, m, |c| - 1, false)
  {
  }

  // One round of the backward sort, over the objects from m on.
  method RoundBackward(list: List, m: nat) returns (somethingSwapped: bool)
    requires list.Valid() && m < |list.Contents()| && SortedUpTo(list.Contents(), m)
    modifies list, list.ring
    ensures list.Valid() && |list.Contents()| == old(|list.Contents()|)
    ensures forall k :: 0 <= k < |list.ring| ==> list.ring[k] in old(list.ring) || fresh(list.ring[k])
    ensures multiset(list.Contents()) == multiset(old(list.Contents()))
    ensures SortedUpTo(list.Contents(), m + 1) && (!somethingSwapped ==> SortedUpTo(list.Contents(), |list.Contents()|))
  {
    hide IsRing, Objects, Swapped, SortedUpTo, RoundDown;
    somethingSwapped := false;
    var last := list.Last();
    var elem: Elem := last;
    ghost var n := |list.Contents()|;
    StartDown(list.Contents(), m);
    for j := 0 to list.numMembers - m - 1
      invariant list.Valid() && |list.Contents()| == n == old(|list.Contents()|)
      invariant multiset(list.Contents()) == multiset(old(list.Contents()))
      invariant elem == list.ring[n - j] && RoundDown(list.Contents(), m, n - 1 - j, somethingSwapped)
      invariant forall k :: 0 <= k < |list.ring| ==> list.ring[k] in old(list.ring) || fresh(list.ring[k])
    {
      ghost var c, at, swapped := list.Contents(), n - j, somethingSwapped;
      var prevElem := list.Prev(elem, at);
      assert elem.obj == c[at - 1] && prevElem.obj == c[at - 2] by {
        ObjectsAt(list.ring, c);
      }
      if elem.obj < prevElem.obj {
        var e1, e2 := BubbleBackward(list, elem, prevElem, at, at - 1);
        prevElem := e2;
        somethingSwapped := true;
      }
      StepDown(c, m, at - 1, swapped, list.Contents());
      elem := prevElem;
    }
    EndDown(list.Contents(), m, somethingSwapped);
  }

  /** BubbleSortBackwardList: the same, from the other end. */
  method BubbleSortBackward(list: List, numItems: nat)
    requires list.Valid() && |list.Contents()| == numItems
    modifies list, list.ring
    ensures list.Valid() && Ascending(list.Contents(), 0, numItems) && |list.Contents()| == numItems
    ensures multiset(list.Contents()) == multiset(old(list.Contents()))
  {
    hide IsRing, Objects, SortedUpTo;
    SortedAtEnd(list.Contents());
    for i := 0 to numItems
      invariant list.Valid() && |list.Contents()| == numItems
      invariant multiset(list.Contents()) == multiset(old(list.Contents()))
      invariant SortedUpTo(list.Contents(), i)
      invariant forall k :: 0 <= k < |list.ring| ==> list.ring[k] in old(list.ring) || fresh(list.ring[k])
    {
      var somethingSwapped := RoundBackward(list, i);
      if !somethingSwapped {
        SortedIs(list.Contents());
        return;
      }
    }
    SortedIs(list.Contents());
  }
}
