/** The circular doubly linked list of `Warmup Assignment 1/my402list.c`, with its anchor. */
module RingList {
  class Elem {
    var obj: int
    var next: Elem
    var prev: Elem

    constructor (data: int)
      ensures obj == data && next == this && prev == this
    {
      obj, next, prev := data, this, this;
    }
  }

  // A ring of elements, the anchor first: next and prev are inverse, all the way round.
  ghost predicate IsRing(ring: seq<Elem>)
    reads ring
  {
    && |ring| > 0
    && (forall i, j :: 0 <= i < j < |ring| ==> ring[i] != ring[j])
    && (forall i :: 0 <= i < |ring| - 1 ==> ring[i].next == ring[i + 1])
    && (forall i :: 0 < i < |ring| ==> ring[i].prev == ring[i - 1])
    && ring[|ring| - 1].next == ring[0] && ring[0].prev == ring[|ring| - 1]
  }

  ghost function Objects(ring: seq<Elem>): (s: seq<int>)
    requires |ring| > 0
    reads ring
    ensures |s| == |ring| - 1
  {
    seq(|ring| - 1, i requires 0 <= i < |ring| - 1 reads ring => ring[i + 1].obj)
  }

  class List {
    var numMembers: int
    const anchor: Elem
    ghost var ring: seq<Elem>

    ghost predicate Valid()
      reads this, ring
    {
      |ring| > 0 && ring[0] == anchor && IsRing(ring) && numMembers == |ring| - 1
    }

    ghost function Contents(): (s: seq<int>)
      requires |ring| > 0
      reads this, ring
      ensures |s| == |ring| - 1
    {
      Objects(ring)
    }

    // My402ListInit
    constructor ()
      ensures Valid() && fresh(ring) && Contents() == []
    {
      var a := new Elem(0);
      anchor := a;
      numMembers := 0;
      ring := [a];
    }

    // My402ListEmpty
    function Empty(): bool
      reads this
    {
      numMembers <= 0
    }

    // My402ListFirst
    method First() returns (r: Elem?)
      requires Valid()
      ensures r == if |ring| == 1 then null else ring[1]
    {
      if Empty() {
        return null;
      }
      return anchor.next;
    }

    // My402ListLast
    method Last() returns (r: Elem?)
      requires Valid()
      ensures r == if |ring| == 1 then null else ring[|ring| - 1]
    {
      if Empty() {
        return null;
      }
      return anchor.prev;
    }

    // My402ListNext
    method Next(cur: Elem, ghost k: nat) returns (r: Elem?)
      requires Valid() && 0 < k < |ring| && ring[k] == cur
      ensures r == if k == |ring| - 1 then null else ring[k + 1]
    {
      var last := Last();
      if cur == last {
        return null;
      }
      return cur.next;
    }

    // My402ListPrev
    method Prev(cur: Elem, ghost k: nat) returns (r: Elem?)
      requires Valid() && 0 < k < |ring| && ring[k] == cur
      ensures r == if k == 1 then null else ring[k - 1]
    {
      var first := First();
      if cur == first {
        return null;
      }
      return cur.prev;
    }

    // Links a new element between ring[k - 1] and its neighbour.
    method Splice(data: int, prev: Elem, next: Elem, ghost k: nat) returns (e: Elem)
      requires Valid() && 0 < k <= |ring| && prev == ring[k - 1] && next == (if k == |ring| then anchor else ring[k])
      modifies this, ring
      ensures fresh(e) && e.obj == data && Valid() && ring == Inserted(old(ring), k, e)
      ensures forall i {:trigger old(ring)[i]} :: 0 <= i < |old(ring)| ==> old(ring)[i].obj == old(ring[i].obj)
    {
      hide Inserted;
      ghost var r := ring;
      e := new Elem(data);
      ghost var r1 := Inserted(r, k, e);
      InsertedAt(r, k, e, r1);
      InsertedDistinct(r, k, e, r1);
      numMembers := numMembers + 1;
      ring := r1;
      prev.next := e;
      next.prev := e;
      e.next := next;
      e.prev := prev;
      assert forall i :: 0 <= i < |r| && i != k - 1 ==> r[i].next == old(r[i].next);
      assert forall i :: 0 <= i < |r| && i != (if k == |r| then 0 else k) ==> r[i].prev == old(r[i].prev);
      forall i | 0 <= i < |r1| - 1 ensures r1[i].next == r1[i + 1] {
        assert i > k ==> r1[i] == r[i - 1];
      }
      forall i | 0 < i < |r1| ensures r1[i].prev == r1[i - 1] {
        assert i > k + 1 ==> r1[i] == r[i - 1];
      }
    }

    method Link(data: int, prev: Elem, next: Elem, ghost k: nat) returns (e: Elem)
      requires Valid() && 0 < k <= |ring| && prev == ring[k - 1] && next == (if k == |ring| then anchor else ring[k])
      modifies this, ring
      ensures fresh(e) && Valid() && ring == Inserted(old(ring), k, e)
      ensures Contents() == Inserted(old(Contents()), k - 1, data)
    {
      hide Inserted, Objects, IsRing;
      ghost var r, c := ring, Contents();
      ObjectsAt(r, c);
      e := Splice(data, prev, next, k);
      ObjectsInserted(c, r, ring, k, e, data);
    }

    // My402ListUnlink
    method Unlink(elem: Elem, ghost k: nat)
      requires Valid() && 0 < k < |ring| && ring[k] == elem
      modifies this, ring
      ensures Valid() && ring == Removed(old(ring), k)
      ensures Contents() == Removed(old(Contents()), k - 1)
    {
      hide Removed, Objects;
      ghost var r, c := ring, Contents();
      ObjectsAt(r, c);
      if Empty() {
        return;
      }
      var prev, next := elem.prev, elem.next;
      assert prev == r[k - 1] && next == if k == |r| - 1 then r[0] else r[k + 1];
      prev.next := next;
      next.prev := prev;
      numMembers := numMembers - 1;
      ghost var r1, c1 := Removed(r, k), Removed(c, k - 1);
      RemovedAt(r, k, r1);
      RemovedAt(c, k - 1, c1);
      assert forall i :: 0 <= i < |r| && i != k - 1 ==> r[i].next == old(r[i].next);
      assert forall i :: 0 <= i < |r| && i != (if k == |r| - 1 then 0 else k + 1) ==> r[i].prev == old(r[i].prev);
      forall i | 0 <= i < |r1| - 1 ensures r1[i].next == r1[i + 1] {
        assert i >= k ==> r1[i] == r[i + 1];
      }
      forall i | 0 < i < |r1| ensures r1[i].prev == r1[i - 1] {
        assert i >= k ==> r1[i] == r[i + 1];
      }
      ring := r1;
      ObjectsAt(r1, Objects(r1));
      assert Objects(r1) == c1;
    }

    // My402ListAppend; memory says whether malloc succeeds.
    method Append(data: int, memory: bool) returns (ok: bool)
      requires Valid()
      modifies this, ring
      ensures Valid() && ok == memory
      ensures !memory ==> ring == old(ring) && Contents() == old(Contents())
      ensures memory ==> |ring| > 1 && fresh(ring[|ring| - 1]) && ring == Inserted(old(ring), |old(ring)|, ring[|ring| - 1])
      ensures memory ==> Contents() == Inserted(old(Contents()), |old(ring)| - 1, data)
    {
      hide IsRing, Inserted, Objects;
      if !memory {
        return false;
      }
      ghost var r := ring;
      RingParts(ring);
      var last := Last();
      var e;
      if last != null {
        e := Link(data, last, anchor, |ring|);
      } else {
        e := Link(data, anchor, anchor, |ring|);
      }
      InsertedAt(r, |r|, e, ring);
      return true;
    }

    // My402ListPrepend
    method Prepend(data: int, memory: bool) returns (ok: bool)
      requires Valid()
      modifies this, ring
      ensures Valid() && ok == memory
      ensures !memory ==> ring == old(ring) && Contents() == old(Contents())
      ensures memory ==> |ring| > 1 && fresh(ring[1]) && ring == Inserted(old(ring), 1, ring[1])
      ensures memory ==> Contents() == Inserted(old(Contents()), 0, data)
    {
      hide IsRing, Inserted, Objects;
      if !memory {
        return false;
      }
      ghost var r := ring;
      RingParts(ring);
      var first := First();
      var e;
      if first != null {
        e := Link(data, anchor, first, 1);
      } else {
        e := Link(data, anchor, anchor, 1);
      }
      InsertedAt(r, 1, e, ring);
      return true;
    }

    // My402ListInsertAfter; without an element the object goes to the end.
    method InsertAfter(data: int, elem: Elem?, memory: bool, ghost k: nat) returns (ok: bool)
      requires Valid() && (elem != null ==> 0 < k < |ring| && ring[k] == elem)
      modifies this, ring
      ensures Valid() && ok == memory
      ensures !memory ==> ring == old(ring) && Contents() == old(Contents())
      ensures memory ==>
        var at := if elem == null then |old(ring)| else k + 1;
        at < |ring| && fresh(ring[at]) && ring == Inserted(old(ring), at, ring[at])
        && Contents() == Inserted(old(Contents()), at - 1, data)
    {
      hide IsRing, Inserted, Objects;
      ghost var r := ring;
      if elem == null {
        ok := Append(data, memory);
        if ok {
          InsertedAt(r, |r|, ring[|ring| - 1], ring);
        }
      } else {
        if !memory {
          return false;
        }
        RingParts(ring);
        var next := elem.next;
        var e := Link(data, elem, next, k + 1);
        InsertedAt(r, k + 1, e, ring);
        return true;
      }
    }

    // My402ListInsertBefore; without an element the object goes to the front.
    method InsertBefore(data: int, elem: Elem?, memory: bool, ghost k: nat) returns (ok: bool)
      requires Valid() && (elem != null ==> 0 < k < |ring| && ring[k] == elem)
      modifies this, ring
      ensures Valid() && ok == memory
      ensures !memory ==> ring == old(ring) && Contents() == old(Contents())
      ensures memory ==>
        var at := if elem == null then 1 else k;
        at < |ring| && fresh(ring[at]) && ring == Inserted(old(ring), at, ring[at])
        && Contents() == Inserted(old(Contents()), at - 1, data)
    {
      hide IsRing, Inserted, Objects;
      if elem == null {
        ok := Prepend(data, memory);
      } else {
        if !memory {
          return false;
        }
        ghost var r := ring;
        RingParts(ring);
        var prev := elem.prev;
        var e := Link(data, prev, elem, k);
        InsertedAt(r, k, e, ring);
        return true;
      }
    }

    // My402ListFind
    method Find(data: int) returns (r: Elem?)
      requires Valid()
      ensures r == null <==> data !in Contents()
      ensures r != null ==> exists k :: 0 < k < |ring| && ring[k] == r && r.obj == data && data !in Contents()[..k - 1]
    {
      hide IsRing, Objects;
      ghost var c := Contents();
      ObjectsAt(ring, c);
      ghost var k := 1;
      var elem := First();
      while elem != null
        invariant 0 < k <= |ring| && (elem == null <==> k == |ring|) && (elem != null ==> elem == ring[k])
        invariant forall i :: 0 <= i < k - 1 ==> c[i] != data
        decreases |ring| - k
      {
        if elem.obj == data {
          assert c[k - 1] == data;
          return elem;
        }
        elem := Next(elem, k);
        k := k + 1;
      }
      return null;
    }

    // My402ListUnlinkAll
    method UnlinkAll()
      requires Valid()
      modifies this, ring
      ensures Valid() && Contents() == []
    {
      hide IsRing, Removed, Objects;
      ObjectsAt(ring, Contents());
      if Empty() {
        return;
      }
      var cur := First();
      while cur != null
        invariant Valid() && cur == (if |ring| == 1 then null else ring[1])
        invariant forall i :: 0 <= i < |ring| ==> ring[i] in old(ring)
        decreases |ring|
      {
        ghost var r := ring;
        var del := cur;
        cur := Next(cur, 1);
        Unlink(del, 1);
        RemovedAt(r, 1, ring);
      }
      ObjectsAt(ring, Contents());
    }
  }

  lemma RingParts(ring: seq<Elem>)
    requires IsRing(ring)
    ensures forall i {:trigger ring[i]} :: 0 <= i < |ring| ==>
      ring[i].next == (if i == |ring| - 1 then ring[0] else ring[i + 1]) && ring[i].prev == if i == 0 then ring[|ring| - 1] else ring[i - 1]
  {
  }

  function Inserted<T>(s: seq<T>, k: nat, x: T): seq<T>
    requires k <= |s|
  {
    s[..k] + [x] + s[k..]
  }

  function Removed<T>(s: seq<T>, k: nat): seq<T>
    requires k < |s|
  {
    s[..k] + s[k + 1..]
  }

  lemma InsertedAt<T>(s: seq<T>, k: nat, x: T, r: seq<T>)
    requires k <= |s| && r == Inserted(s, k, x)
    ensures |r| == |s| + 1
    ensures forall i {:trigger r[i]} :: 0 <= i < |r| ==> r[i] == if i < k then s[i] else if i == k then x else s[i - 1]
  {
  }

  lemma RemovedAt<T>(s: seq<T>, k: nat, r: seq<T>)
    requires k < |s| && r == Removed(s, k)
    ensures |r| == |s| - 1
    ensures forall i {:trigger r[i]} :: 0 <= i < |r| ==> r[i] == if i < k then s[i] else s[i + 1]
  {
  }

  lemma ObjectsAt(ring: seq<Elem>, c: seq<int>)
    requires |ring| > 0 && c == Objects(ring)
    ensures |c| == |ring| - 1
    ensures forall i {:trigger c[i]} :: 0 <= i < |c| ==> c[i] == ring[i + 1].obj
  {
  }

  lemma ObjectsInserted(c: seq<int>, r: seq<Elem>, r1: seq<Elem>, k: nat, e: Elem, data: int)
    requires 0 < k <= |r| && |c| == |r| - 1 && r1 == Inserted(r, k, e) && e.obj == data
    requires forall i {:trigger c[i]} :: 0 <= i < |c| ==> c[i] == r[i + 1].obj
    ensures |r1| == |r| + 1 && Objects(r1) == Inserted(c, k - 1, data)
  {
    hide Inserted, Objects;
    var c1 := Inserted(c, k - 1, data);
    InsertedAt(r, k, e, r1);
    InsertedAt(c, k - 1, data, c1);
    ObjectsAt(r1, Objects(r1));
    assert Objects(r1) == c1;
  }

  lemma InsertedDistinct(r: seq<Elem>, k: nat, e: Elem, r1: seq<Elem>)
    requires k <= |r| && r1 == Inserted(r, k, e) && e !in r
    requires forall i, j :: 0 <= i < j < |r| ==> r[i] != r[j]
    ensures forall i, j :: 0 <= i < j < |r1| ==> r1[i] != r1[j]
  {
    hide Inserted;
    InsertedAt(r, k, e, r1);
  }
}
