/** The slab allocator of `kernel/mm/slab.c`: growing, allocating, freeing and reclaiming, in place. */
module SlabAllocator {
  import opened SlabLayout
  import opened Wrappers

  // What must hold between calls.
  ghost predicate AllOk(ctls: Ctls, heads: Slabs, list: seq<nat>, d: nat, m: nat, block: nat, free: map<nat, seq<nat>>)
  {
    && Placed(heads, list, d, m, block)
    && (forall s :: s in heads ==> s in free && SlabOk(ctls, heads, d, m, s, free[s]) && 0 <= heads[s].inuse)
    && (forall x :: x in ctls <==> OfSome(heads, d, m, x))
  }

  // x is an object of one of the slabs.
  ghost predicate OfSome(heads: Slabs, d: nat, m: nat, x: nat) {
    exists s :: IsObj(heads, d, m, s, x)
  }

  // The objects in use.
  ghost function Live(ctls: Ctls): set<nat> {
    set x | x in ctls && !ctls[x].free
  }

  // A page block that no slab has, for page_alloc_n.
  ghost predicate NewBlock(heads: Slabs, base: nat, block: nat) {
    base > 0 && forall s :: s in heads ==> Apart(heads[s].addr, block, base, block)
  }

  // An object in use belongs to the slab it points back to.
  lemma BackPointer(ctls: Ctls, heads: Slabs, list: seq<nat>, d: nat, m: nat, block: nat, free: map<nat, seq<nat>>, x: nat)
    requires AllOk(ctls, heads, list, d, m, block, free) && x in Live(ctls)
    ensures ctls[x].link in heads && IsObj(heads, d, m, ctls[x].link, x)
    ensures forall s :: IsObj(heads, d, m, s, x) ==> s == ctls[x].link
  {
    hide IsObj, Placed;
    var s :| IsObj(heads, d, m, s, x);
    forall t | IsObj(heads, d, m, t, x) ensures s == t {
      NothingOverlaps(heads, list, d, m, block, s, x, t, x);
    }
    ObjOfKnown(heads, d, m, s, x);
  }

  lemma ObjOfKnown(heads: Slabs, d: nat, m: nat, s: nat, x: nat)
    requires IsObj(heads, d, m, s, x)
    ensures s in heads
  {
  }

  // A change to one slab and its objects keeps the others.
  lemma OthersOk(ctls: Ctls, heads: Slabs, list: seq<nat>, d: nat, m: nat, block: nat, free: map<nat, seq<nat>>,
                 s: nat, x: nat, ctls': Ctls, heads': Slabs, free': map<nat, seq<nat>>)
    requires s in heads && s in free' && x in ctls' && ctls' == ctls[x := ctls'[x]] && heads.Keys <= free.Keys
    requires heads'.Keys == heads.Keys && heads'[s].addr == heads[s].addr && heads'[s].inuse >= 0
    requires forall t :: t in heads && t != s ==> heads'[t] == heads[t] && t in free' && free'[t] == free[t]
    requires SlabOk(ctls', heads', d, m, s, free'[s])
    requires IsObj(heads, d, m, s, x) && AllOk(ctls, heads, list, d, m, block, free)
    ensures AllOk(ctls', heads', list, d, m, block, free')
  {
    hide IsObj, SlabOk, Placed, ObjAt;
    PlacedKept(heads, heads', list, d, m, block);
    forall t | t in heads' && t != s ensures SlabOk(ctls', heads', d, m, t, free'[t]) {
      forall y | IsObj(heads, d, m, t, y) ensures y != x {
        if y == x {
          NothingOverlaps(heads, list, d, m, block, s, x, t, y);
        }
      }
      SlabKept(ctls, heads, ctls', heads', d, m, t, free[t]);
    }
    forall y ensures OfSome(heads', d, m, y) <==> OfSome(heads, d, m, y) {
      SameSome(heads, heads', d, m, y);
    }
  }

  lemma PlacedKept(heads: Slabs, heads': Slabs, list: seq<nat>, d: nat, m: nat, block: nat)
    requires Placed(heads, list, d, m, block)
    requires heads'.Keys == heads.Keys && forall t :: t in heads ==> heads'[t].addr == heads[t].addr
    ensures Placed(heads', list, d, m, block)
  {
    hide ObjAt, Apart;
  }

  lemma SameSome(heads: Slabs, heads': Slabs, d: nat, m: nat, y: nat)
    requires heads'.Keys == heads.Keys && forall t :: t in heads ==> heads'[t].addr == heads[t].addr
    ensures OfSome(heads', d, m, y) <==> OfSome(heads, d, m, y)
  {
    hide IsObj;
    forall t ensures IsObj(heads', d, m, t, y) <==> IsObj(heads, d, m, t, y) {
      if t in heads {
        SameObjs(heads, heads', d, m, t);
      } else {
        NotObj(heads, d, m, t, y);
        NotObj(heads', d, m, t, y);
      }
    }
  }

  lemma NotObj(heads: Slabs, d: nat, m: nat, t: nat, y: nat)
    requires t !in heads
    ensures !IsObj(heads, d, m, t, y)
  {
  }

  // ---------------------------------------------------------------------------------------------
  // A new slab beside the others

  // ctls' is ctls with bufctls for the first n objects of a new slab.
  ghost predicate OnlyNew(ctls: Ctls, ctls': Ctls, base: nat, d: nat, n: nat) {
    && (forall x :: x in ctls' <==> x in ctls || InRow(base, d, n, x))
    && (forall x :: x in ctls && !InRow(base, d, n, x) ==> ctls'[x] == ctls[x])
  }

  lemma RowNext(ctls: Ctls, ctls': Ctls, base: nat, d: nat, n: nat, c: Bufctl)
    requires OnlyNew(ctls, ctls', base, d, n)
    ensures OnlyNew(ctls, ctls'[ObjAt(base, d, n) := c], base, d, n + 1)
  {
    hide ObjAt;
    forall x ensures InRow(base, d, n + 1, x) <==> InRow(base, d, n, x) || x == ObjAt(base, d, n) {
      if InRow(base, d, n + 1, x) && x != ObjAt(base, d, n) {
        var k: nat :| k < n + 1 && x == ObjAt(base, d, k);
        assert k != n;
      }
    }
  }

  lemma RowStart(ctls: Ctls, base: nat, d: nat)
    ensures OnlyNew(ctls, ctls, base, d, 0)
  {
  }

  // Nothing of an old slab is in a new block.
  lemma OldApart(heads: Slabs, list: seq<nat>, d: nat, m: nat, block: nat, base: nat, s: nat)
    requires Placed(heads, list, d, m, block) && NewBlock(heads, base, block) && s in heads
    ensures s != ObjAt(base, d, m) && forall x :: IsObj(heads, d, m, s, x) ==> !InRow(base, d, m, x)
  {
    hide ObjAt;
    var a := heads[s].addr;
    assert Apart(a, block, base, block);
    Inside(a, d, m, block, 0);
    Inside(base, d, m, block, 0);
    forall x | IsObj(heads, d, m, s, x) ensures !InRow(base, d, m, x) {
      var j: nat :| j < m && x == ObjAt(a, d, j);
      Inside(a, d, m, block, j);
      forall k: nat | k < m ensures x != ObjAt(base, d, k) {
        Inside(base, d, m, block, k);
      }
    }
  }

  lemma GrowPlaced(heads: Slabs, list: seq<nat>, d: nat, m: nat, block: nat, base: nat, slab: nat)
    requires Placed(heads, list, d, m, block) && NewBlock(heads, base, block) && slab == ObjAt(base, d, m)
    ensures slab !in heads && Placed(heads[slab := Slab(0, base, base)], [slab] + list, d, m, block)
  {
    hide ObjAt;
    if slab in heads {
      OldApart(heads, list, d, m, block, base, slab);
    }
    assert forall s :: s in [slab] + list <==> s == slab || s in list;
  }

  lemma GrowKeeps(ctls: Ctls, heads: Slabs, list: seq<nat>, d: nat, m: nat, block: nat, free: map<nat, seq<nat>>,
                  base: nat, slab: nat, ctls': Ctls)
    requires AllOk(ctls, heads, list, d, m, block, free) && NewBlock(heads, base, block) && slab == ObjAt(base, d, m)
    requires OnlyNew(ctls, ctls', base, d, m) && Linked(ctls', base, d, m)
    ensures AllOk(ctls', heads[slab := Slab(0, base, base)], [slab] + list, d, m, block, free[slab := Row(base, d, m, 0)])
    ensures Live(ctls') == Live(ctls) && slab !in heads
  {
    hide ObjAt, SlabOk, Placed, Row, Linked;
    var heads', free' := heads[slab := Slab(0, base, base)], free[slab := Row(base, d, m, 0)];
    GrowPlaced(heads, list, d, m, block, base, slab);
    PlacedParts(heads, list, d, m, block);
    forall s | s in heads ensures s != slab && SlabOk(ctls', heads', d, m, s, free'[s]) {
      OldApart(heads, list, d, m, block, base, s);
      SlabKept(ctls, heads, ctls', heads', d, m, s, free[s]);
    }
    NewSlabOk(ctls', heads', d, m, slab, base);
    forall x ensures OfSome(heads', d, m, x) <==> OfSome(heads, d, m, x) || InRow(base, d, m, x) {
      SomeOfNew(heads, heads', d, m, slab, base, x);
    }
    forall x ensures x in Live(ctls') <==> x in Live(ctls) {
      RowFree(ctls', base, d, m, x);
      if x in ctls && InRow(base, d, m, x) {
        var s :| IsObj(heads, d, m, s, x);
        OldApart(heads, list, d, m, block, base, s);
      }
    }
  }

  lemma PlacedParts(heads: Slabs, list: seq<nat>, d: nat, m: nat, block: nat)
    requires Placed(heads, list, d, m, block)
    ensures d >= BUFCTL && m >= 1
  {
  }

  lemma SomeOfNew(heads: Slabs, heads': Slabs, d: nat, m: nat, slab: nat, base: nat, x: nat)
    requires slab !in heads && heads' == heads[slab := Slab(0, base, base)]
    ensures OfSome(heads', d, m, x) <==> OfSome(heads, d, m, x) || InRow(base, d, m, x)
  {
    hide ObjAt;
    forall s | s in heads ensures IsObj(heads', d, m, s, x) <==> IsObj(heads, d, m, s, x) {
      SameObjs(heads, heads', d, m, s);
    }
    ObjInRow(heads', d, m, slab, x);
  }

  lemma ObjInRow(heads: Slabs, d: nat, m: nat, s: nat, x: nat)
    requires s in heads
    ensures IsObj(heads, d, m, s, x) <==> InRow(heads[s].addr, d, m, x)
  {
    hide ObjAt;
    var base := heads[s].addr;
    if IsObj(heads, d, m, s, x) {
      var k: nat :| k < m && x == ObjAt(base, d, k);
      assert InRow(base, d, m, x);
    }
    if InRow(base, d, m, x) {
      var k: nat :| k < m && x == ObjAt(base, d, k);
      assert IsObj(heads, d, m, s, x);
    }
  }

  lemma RowFree(ctls: Ctls, base: nat, d: nat, m: nat, x: nat)
    requires Linked(ctls, base, d, m) && m > 0
    ensures InRow(base, d, m, x) ==> x in ctls && ctls[x].free
  {
    hide ObjAt;
    if InRow(base, d, m, x) {
      var k: nat :| k < m && x == ObjAt(base, d, k);
      if k + 1 < m {
        assert ctls[ObjAt(base, d, k)] == Bufctl(ObjAt(base, d, k + 1), true);
      } else {
        assert k == m - 1;
      }
    }
  }

  // ---------------------------------------------------------------------------------------------
  // Counting what is in use

  /** s_inuse is the number of objects only when all of them are in use, and zero only when none is. */
  lemma InuseCounts(ctls: Ctls, heads: Slabs, d: nat, m: nat, s: nat, list: seq<nat>)
    requires d > 0 && s in heads && SlabOk(ctls, heads, d, m, s, list)
    ensures 0 <= heads[s].inuse <= m
    ensures heads[s].inuse == m <==> forall x :: IsObj(heads, d, m, s, x) ==> x in ctls && !ctls[x].free
    ensures heads[s].inuse == 0 <==> forall x :: IsObj(heads, d, m, s, x) ==> x in ctls && ctls[x].free
  {
    hide ObjAt, Chain;
    forall x ensures IsObj(heads, d, m, s, x) <==> InRow(heads[s].addr, d, m, x) {
      ObjInRow(heads, d, m, s, x);
    }
    NoMoreThanFit(heads[s].addr, d, m, list);
    if heads[s].inuse < m {
      assert IsObj(heads, d, m, s, list[0]);
    }
  }

  // ---------------------------------------------------------------------------------------------
  // A slab given back

  // What is left of the bufctls.
  function Without(ctls: Ctls, base: nat, d: nat, m: nat): Ctls {
    map x | x in ctls && !InRow(base, d, m, x) :: ctls[x]
  }

  lemma DropPlaced(heads: Slabs, list: seq<nat>, d: nat, m: nat, block: nat, i: nat)
    requires Placed(heads, list, d, m, block) && i < |list|
    ensures Placed(heads - {list[i]}, list[..i] + list[i + 1..], d, m, block)
  {
    hide ObjAt, Apart;
    var list' := list[..i] + list[i + 1..];
    forall s ensures s in list' <==> s in list && s != list[i] {
      if s in list && s != list[i] {
        var j :| 0 <= j < |list| && list[j] == s;
        assert list'[if j < i then j else j - 1] == s;
      }
    }
    forall j, k | 0 <= j < k < |list'| ensures list'[j] != list'[k] {
      assert list'[j] == list[if j < i then j else j + 1];
      assert list'[k] == list[if k < i then k else k + 1];
    }
  }

  /** A slab with no object in use can go: the others stay in order, and no object in use is lost. */
  lemma DropKeeps(ctls: Ctls, heads: Slabs, list: seq<nat>, d: nat, m: nat, block: nat, free: map<nat, seq<nat>>, i: nat,
                  ctls': Ctls, heads': Slabs)
    requires i < |list| && list[i] in heads && heads[list[i]].inuse == 0 && AllOk(ctls, heads, list, d, m, block, free)
    requires ctls' == Without(ctls, heads[list[i]].addr, d, m) && heads' == heads - {list[i]}
    ensures AllOk(ctls', heads', list[..i] + list[i + 1..], d, m, block, free)
    ensures Live(ctls') == Live(ctls)
  {
    hide IsObj, InRow, SlabOk, Placed;
    var s := list[i];
    DropPlaced(heads, list, d, m, block, i);
    PlacedParts(heads, list, d, m, block);
    forall x ensures IsObj(heads, d, m, s, x) <==> InRow(heads[s].addr, d, m, x) {
      ObjIsInRow(heads, d, m, s, x);
    }
    forall t, x | t in heads' && IsObj(heads, d, m, t, x) ensures !IsObj(heads, d, m, s, x) {
      if IsObj(heads, d, m, s, x) {
        NothingOverlaps(heads, list, d, m, block, s, x, t, x);
      }
    }
    forall t | t in heads' ensures SlabOk(ctls', heads', d, m, t, free[t]) {
      SlabKept(ctls, heads, ctls', heads', d, m, t, free[t]);
    }
    forall x ensures OfSome(heads', d, m, x) <==> OfSome(heads, d, m, x) && !IsObj(heads, d, m, s, x) {
      SomeOfLess(heads, heads', d, m, s, x);
    }
    InuseCounts(ctls, heads, d, m, s, free[s]);
  }

  lemma ObjIsInRow(heads: Slabs, d: nat, m: nat, s: nat, x: nat)
    requires s in heads
    ensures IsObj(heads, d, m, s, x) <==> InRow(heads[s].addr, d, m, x)
  {
    hide ObjAt;
  }

  lemma SomeOfLess(heads: Slabs, heads': Slabs, d: nat, m: nat, s: nat, x: nat)
    requires s in heads && heads' == heads - {s}
    requires forall t, y :: t in heads' && IsObj(heads, d, m, t, y) ==> !IsObj(heads, d, m, s, y)
    ensures OfSome(heads', d, m, x) <==> OfSome(heads, d, m, x) && !IsObj(heads, d, m, s, x)
  {
    hide ObjAt;
    forall t ensures IsObj(heads', d, m, t, x) <==> t != s && IsObj(heads, d, m, t, x) {
      if t in heads' {
        SameObjs(heads, heads', d, m, t);
      }
    }
  }

  class Allocator {
    const objsize: nat
    const order: nat
    const nobjs: nat
    var slabs: seq<nat>          // the slabs, linked by s_next
    var heads: Slabs             // struct slab, by address
    var ctls: Ctls               // struct slab_bufctl, by the address of its object
    ghost var free: map<nat, seq<nat>>

    ghost predicate Valid()
      reads this
    {
      AllOk(ctls, heads, slabs, Stride(objsize), nobjs, BlockSize(order), free)
    }

    // _allocator_init, once _calc_slab_size has found a block size
    constructor (size: nat, ord: nat, n: nat)
      requires n >= 1 && SlabSize(size, n) <= BlockSize(ord)
      ensures Valid() && objsize == size && order == ord && nobjs == n && slabs == [] && Live(ctls) == {}
    {
      objsize, order, nobjs := size, ord, n;
      slabs, heads, ctls, free := [], map[], map[], map[];
    }

    // The bufctls of a new slab: each is free and links to the next object.
    method LinkObjects(addr: nat) returns (obj: nat)
      requires nobjs >= 1
      modifies this`ctls
      ensures OnlyNew(old(ctls), ctls, addr, Stride(objsize), nobjs) && Linked(ctls, addr, Stride(objsize), nobjs)
      ensures obj == ObjAt(addr, Stride(objsize), nobjs - 1)
    {
      hide ObjAt, OnlyNew;
      var d := Stride(objsize);
      obj := addr;
      ObjNext(addr, d, 0);
      RowStart(ctls, addr, d);
      for i := 0 to nobjs - 1
        invariant obj == ObjAt(addr, d, i) && OnlyNew(old(ctls), ctls, addr, d, i)
        invariant forall k: nat :: k < i ==>
          ObjAt(addr, d, k) in ctls && ctls[ObjAt(addr, d, k)] == Bufctl(ObjAt(addr, d, k + 1), true)
      {
        ObjNext(addr, d, i);
        RowNext(old(ctls), ctls, addr, d, i, Bufctl(obj + d, true));
        forall k: nat | k < i ensures ObjAt(addr, d, k) != obj {
          ObjOrder(addr, d, k, i);
        }
        ctls := ctls[obj := Bufctl(obj + d, true)];
        obj := obj + d;
      }
      RowNext(old(ctls), ctls, addr, d, nobjs - 1, Bufctl(0, true));
      forall k: nat | k < nobjs - 1 ensures ObjAt(addr, d, k) != obj {
        ObjOrder(addr, d, k, nobjs - 1);
      }
      ctls := ctls[obj := Bufctl(0, true)];
    }

    // _slab_allocator_grow; page is what page_alloc_n returns.
    method Grow(page: Option<nat>) returns (ok: bool)
      requires Valid() && (page.Some? ==> NewBlock(heads, page.value, BlockSize(order)))
      modifies this
      ensures Valid() && ok == page.Some? && Live(ctls) == old(Live(ctls))
      ensures !ok ==> unchanged(this)
      ensures ok ==> slabs != [] && slabs[1..] == old(slabs) && slabs[0] in heads && heads[slabs[0]].inuse == 0
      ensures forall s :: s in old(heads) ==> s in heads && heads[s] == old(heads)[s]
    {
      hide ObjAt, BlockSize, AllOk, Row, OnlyNew, Linked, NewBlock, Live;
      if page == None {
        return false;
      }
      var addr, d := page.value, Stride(objsize);
      ghost var ctls0, heads0, slabs0, free0 := ctls, heads, slabs, free;
      AllOkParts(ctls, heads, slabs, d, nobjs, BlockSize(order), free);
      var last := LinkObjects(addr);
      ObjNext(addr, d, nobjs - 1);
      var slab := last + d;
      GrowKeeps(ctls0, heads0, slabs0, d, nobjs, BlockSize(order), free0, addr, slab, ctls);
      heads := heads[slab := Slab(0, addr, addr)];
      slabs := [slab] + slabs;
      free := free[slab := Row(addr, d, nobjs, 0)];
      return true;
    }

    // The first slab with an object to spare.
    method FirstWithRoom() returns (i: nat)
      requires Valid()
      ensures i <= |slabs| && forall j :: 0 <= j < |slabs| ==> slabs[j] in heads
      ensures forall j :: 0 <= j < i ==> heads[slabs[j]].inuse == nobjs
      ensures i < |slabs| ==> heads[slabs[i]].inuse < nobjs
    {
      hide AllOk, BlockSize;
      AllOkParts(ctls, heads, slabs, Stride(objsize), nobjs, BlockSize(order), free);
      i := 0;
      while i < |slabs| && heads[slabs[i]].inuse == nobjs
        invariant i <= |slabs| && forall j :: 0 <= j < i ==> heads[slabs[j]].inuse == nobjs
      {
        i := i + 1;
      }
      if i < |slabs| {
        SlabCounts(ctls, heads, slabs, Stride(objsize), nobjs, BlockSize(order), free, slabs[i]);
      }
    }

    // Takes the object at the head of a slab's free list, and makes its bufctl point back to the slab.
    method Take(slab: nat) returns (obj: nat)
      requires Valid() && slab in heads && heads[slab].inuse < nobjs
      modifies this
      ensures Valid() && slabs == old(slabs) && ctls.Keys == old(ctls.Keys) && obj in ctls
      ensures obj !in old(Live(ctls)) && Live(ctls) == old(Live(ctls)) + {obj}
      ensures ctls[obj].link == slab && IsObj(heads, Stride(objsize), nobjs, slab, obj)
    {
      hide AllOk, SlabOk, BlockSize, IsObj;
      var d := Stride(objsize);
      ghost var ctls0, heads0, free0 := ctls, heads, free;
      HeadFree(ctls, heads, slabs, d, nobjs, BlockSize(order), free, slab);
      obj := heads[slab].free;
      var next := ctls[obj].link;
      ctls := ctls[obj := Bufctl(slab, false)];
      heads := heads[slab := Slab(heads[slab].inuse + 1, next, heads[slab].addr)];
      TakeKeeps(ctls0, heads0, d, nobjs, slab, free0[slab], ctls, heads);
      free := free[slab := free[slab][1..]];
      OthersOk(ctls0, heads0, slabs, d, nobjs, BlockSize(order), free0, slab, obj, ctls, heads, free);
      AddrKept(heads0, heads, d, nobjs, slab, obj);
    }

    /** slab_obj_alloc; page is what page_alloc_n returns to _slab_allocator_grow, which is asked only when
        all objects are in use. */
    method ObjAlloc(page: Option<nat>) returns (r: Option<nat>)
      requires Valid() && (page.Some? ==> NewBlock(heads, page.value, BlockSize(order)))
      modifies this
      ensures Valid()
      ensures r == None <==> page == None && old(ctls.Keys == Live(ctls))
      ensures r == None ==> unchanged(this)
      ensures r.Some? ==> r.value in ctls && r.value !in old(Live(ctls)) && Live(ctls) == old(Live(ctls)) + {r.value}
      ensures old(ctls.Keys != Live(ctls)) ==> slabs == old(slabs) && ctls.Keys == old(ctls.Keys)
    {
      hide AllOk, BlockSize, Live, NewBlock;
      var i := FirstWithRoom();
      AllInUse(ctls, heads, slabs, Stride(objsize), nobjs, BlockSize(order), free);
      AllOkParts(ctls, heads, slabs, Stride(objsize), nobjs, BlockSize(order), free);
      if i == |slabs| {
        assert forall s :: s in heads ==> heads[s].inuse == nobjs;
        var ok := Grow(page);
        if !ok {
          return None;
        }
        AllOkParts(ctls, heads, slabs, Stride(objsize), nobjs, BlockSize(order), free);
        i := FirstWithRoom();
      }
      var obj := Take(slabs[i]);
      r := Some(obj);
    }

    /** slab_obj_free; the assertion that the object is not free holds of every object in use. */
    method ObjFree(obj: nat)
      requires Valid() && obj in Live(ctls)
      modifies this
      ensures Valid() && Live(ctls) == old(Live(ctls)) - {obj}
      ensures slabs == old(slabs) && ctls.Keys == old(ctls.Keys)
    {
      hide AllOk, SlabOk, BlockSize, IsObj;
      var d := Stride(objsize);
      ghost var ctls0, heads0, free0 := ctls, heads, free;
      BackPointer(ctls, heads, slabs, d, nobjs, BlockSize(order), free, obj);
      var slab := ctls[obj].link;
      InUseFacts(ctls, heads, slabs, d, nobjs, BlockSize(order), free, slab, obj);
      ctls := ctls[obj := Bufctl(heads[slab].free, true)];
      heads := heads[slab := Slab(heads[slab].inuse - 1, obj, heads[slab].addr)];
      GiveKeeps(ctls0, heads0, d, nobjs, slab, free0[slab], obj, ctls, heads);
      free := free[slab := [obj] + free[slab]];
      OthersOk(ctls0, heads0, slabs, d, nobjs, BlockSize(order), free0, slab, obj, ctls, heads, free);
    }

    // The pages of all slabs.
    function Held(): nat
      reads this
    {
      |slabs| * Pages(order)
    }

    // No slab is without an object in use.
    ghost predicate NoneSpare()
      reads this
    {
      forall s :: s in heads ==> heads[s].inuse > 0
    }

    // Takes the i-th slab off the list and gives its pages back.
    method Drop(i: nat) returns (page: nat)
      requires Valid() && i < |slabs| && slabs[i] in heads && heads[slabs[i]].inuse == 0
      modifies this
      ensures Valid() && Live(ctls) == old(Live(ctls)) && slabs == old(slabs[..i] + slabs[i + 1..])
      ensures heads == old(heads - {slabs[i]}) && page == old(heads[slabs[i]].addr)
      ensures slabs[..i] == old(slabs[..i])
    {
      hide AllOk, BlockSize, Live, InRow;
      var s, d := slabs[i], Stride(objsize);
      page := heads[s].addr;
      DropKeeps(ctls, heads, slabs, d, nobjs, BlockSize(order), free, i, Without(ctls, page, d, nobjs), heads - {s});
      ctls := Without(ctls, page, d, nobjs);
      heads := heads - {s};
      slabs := slabs[..i] + slabs[i + 1..];
    }

    /** The walk of slab_allocators_reclaim along one allocator's slabs, freed pages having been freed before;
        met when the target stopped it. */
    method ReclaimSlabs(target: int, freed: nat) returns (total: nat, met: bool)
      requires Valid() && (target > 0 ==> freed < target)
      modifies this
      ensures Valid() && Live(ctls) == old(Live(ctls))
      ensures total + Held() == freed + old(Held())
      ensures if met then 0 < target <= total < target + Pages(order) else target > 0 ==> total < target
      ensures !met ==> NoneSpare()
      ensures heads.Keys <= old(heads.Keys)
      ensures forall s :: s in old(heads) && s !in heads ==> old(heads)[s].inuse == 0
      ensures forall s :: s in heads ==> heads[s] == old(heads)[s]
    {
      hide AllOk, BlockSize, Live, Pages;
      total, met := freed, false;
      var i := 0;
      ghost var n := 0;
      AllOkParts(ctls, heads, slabs, Stride(objsize), nobjs, BlockSize(order), free);
      while i < |slabs|
        invariant i <= |slabs| && Valid() && Live(ctls) == old(Live(ctls)) && forall s :: s in slabs <==> s in heads
        invariant n + |slabs| == |old(slabs)| && total == freed + n * Pages(order) && (target > 0 ==> total < target)
        invariant forall j :: 0 <= j < i ==> heads[slabs[j]].inuse > 0
        invariant heads.Keys <= old(heads.Keys) && forall s :: s in heads ==> heads[s] == old(heads)[s]
        invariant forall s :: s in old(heads) && s !in heads ==> old(heads)[s].inuse == 0
        decreases |slabs| - i
      {
        assert slabs[i] in heads;
        SlabCounts(ctls, heads, slabs, Stride(objsize), nobjs, BlockSize(order), free, slabs[i]);
        if heads[slabs[i]].inuse == 0 {
          var page := Drop(i);
          AllOkParts(ctls, heads, slabs, Stride(objsize), nobjs, BlockSize(order), free);
          OneMore(n, Pages(order));
          n := n + 1;
          total := total + Pages(order);
        } else {
          i := i + 1;
        }
        if target > 0 && total >= target {
          met := true;
          PagesMoved(n, |slabs|, |old(slabs)|, Pages(order));
          return;
        }
      }
      PagesMoved(n, |slabs|, |old(slabs)|, Pages(order));
    }
  }

  // 1 << order, in pages
  function Pages(order: nat): (n: nat)
    ensures n >= 1
  {
    if order == 0 then 1 else 2 * Pages(order - 1)
  }

  /** They are the pages of the blocks that the slabs take up. */
  lemma {:induction false} PagesOfBlock(order: nat)
    ensures Pages(order) * PAGE_SIZE == BlockSize(order)
  {
    if order > 0 {
      PagesOfBlock(order - 1);
    }
  }

  lemma OneMore(n: nat, p: nat)
    ensures (n + 1) * p == n * p + p
  {
  }

  lemma PagesMoved(n: nat, left: nat, all: nat, p: nat)
    requires n + left == all
    ensures n * p + left * p == all * p
  {
  }

  // The pages that each allocator holds.
  function Helds(all: seq<Allocator>): seq<nat>
    reads all
  {
    if all == [] then [] else [all[0].Held()] + Helds(all[1..])
  }

  lemma {:induction false} HeldsAre(all: seq<Allocator>, r: seq<nat>)
    ensures r == Helds(all) <==> |r| == |all| && forall i :: 0 <= i < |r| ==> r[i] == all[i].Held()
  {
    if all != [] && r != [] {
      HeldsAre(all[1..], r[1..]);
      assert r == [r[0]] + r[1..];
    }
  }

  function Sum(s: seq<nat>): nat {
    if s == [] then 0 else s[0] + Sum(s[1..])
  }

  lemma {:induction false} SumUpdate(s: seq<nat>, n: nat, v: nat)
    requires n < |s|
    ensures Sum(s[n := v]) + s[n] == Sum(s) + v
  {
    if n == 0 {
      assert s[n := v][1..] == s[1..];
    } else {
      SumUpdate(s[1..], n - 1, v);
      assert s[n := v][1..] == s[1..][n - 1 := v];
    }
  }

  /** slab_allocators_reclaim: exactly the pages it reports leave the allocators, no object in use is lost,
      and unless the target is met no unused slab is left. */
  method Reclaim(all: seq<Allocator>, target: int) returns (freed: nat)
    requires forall i, j :: 0 <= i < j < |all| ==> all[i] != all[j]
    requires forall a :: a in all ==> a.Valid()
    modifies all
    ensures forall a :: a in all ==> a.Valid() && Live(a.ctls) == old(Live(a.ctls))
    ensures freed + Sum(Helds(all)) == old(Sum(Helds(all)))
    ensures (target > 0 && freed >= target) || forall a :: a in all ==> a.NoneSpare()
    ensures target > 0 && freed >= target ==> exists a :: a in all && freed < target + Pages(a.order)
  {
    hide AllOk, Live, BlockSize, Pages, Sum, Helds;
    freed := 0;
    for n := 0 to |all|
      invariant forall a :: a in all ==> a.Valid() && Live(a.ctls) == old(Live(a.ctls))
      invariant freed + Sum(Helds(all)) == old(Sum(Helds(all)))
      invariant forall j :: 0 <= j < n ==> all[j].NoneSpare()
      invariant target > 0 ==> freed < target
    {
      ghost var was := Helds(all);
      HeldsAre(all, was);
      var met;
      freed, met := all[n].ReclaimSlabs(target, freed);
      HeldsAre(all, was[n := all[n].Held()]);
      SumUpdate(was, n, all[n].Held());
      if met {
        assert all[n] in all;
        return;
      }
    }
  }

  lemma AllOkParts(ctls: Ctls, heads: Slabs, list: seq<nat>, d: nat, m: nat, block: nat, free: map<nat, seq<nat>>)
    requires AllOk(ctls, heads, list, d, m, block, free)
    ensures m >= 1 && heads.Keys <= free.Keys && forall s :: s in list <==> s in heads
  {
    assert heads.Keys == set s | s in list;
    assert forall s :: s in list <==> s in heads.Keys;
  }

  lemma SlabCounts(ctls: Ctls, heads: Slabs, list: seq<nat>, d: nat, m: nat, block: nat, free: map<nat, seq<nat>>, s: nat)
    requires s in heads && AllOk(ctls, heads, list, d, m, block, free)
    ensures s in free && SlabOk(ctls, heads, d, m, s, free[s]) && 0 <= heads[s].inuse <= m
  {
    hide SlabOk, Placed;
    PlacedParts(heads, list, d, m, block);
    InuseCounts(ctls, heads, d, m, s, free[s]);
  }

  // The head of the free list of a slab that is not full.
  lemma HeadFree(ctls: Ctls, heads: Slabs, list: seq<nat>, d: nat, m: nat, block: nat, free: map<nat, seq<nat>>, s: nat)
    requires s in heads && heads[s].inuse < m && AllOk(ctls, heads, list, d, m, block, free)
    ensures s in free && SlabOk(ctls, heads, d, m, s, free[s]) && free[s] != [] && 0 <= heads[s].inuse
    ensures heads[s].free in ctls && ctls[heads[s].free].free && IsObj(heads, d, m, s, heads[s].free)
    ensures heads.Keys <= free.Keys
  {
    hide IsObj, Placed;
    assert free[s][0] in free[s];
  }

  lemma AddrKept(heads: Slabs, heads': Slabs, d: nat, m: nat, s: nat, x: nat)
    requires s in heads && s in heads' && heads'[s].addr == heads[s].addr && IsObj(heads, d, m, s, x)
    ensures IsObj(heads', d, m, s, x)
  {
    SameObjs(heads, heads', d, m, s);
  }

  // Every slab is full exactly when every object is in use.
  lemma AllInUse(ctls: Ctls, heads: Slabs, list: seq<nat>, d: nat, m: nat, block: nat, free: map<nat, seq<nat>>)
    requires AllOk(ctls, heads, list, d, m, block, free)
    ensures ctls.Keys == Live(ctls) <==> forall s :: s in heads ==> heads[s].inuse == m
  {
    hide IsObj, SlabOk, Placed;
    PlacedParts(heads, list, d, m, block);
    forall s | s in heads
      ensures heads[s].inuse == m <==> forall x :: IsObj(heads, d, m, s, x) ==> x in ctls && !ctls[x].free {
      InuseCounts(ctls, heads, d, m, s, free[s]);
    }
    if forall s :: s in heads ==> heads[s].inuse == m {
      forall x | x in ctls ensures !ctls[x].free {
        var s :| IsObj(heads, d, m, s, x);
        ObjOfKnown(heads, d, m, s, x);
      }
    } else {
      var s :| s in heads && heads[s].inuse != m;
      var x :| IsObj(heads, d, m, s, x) && !(x in ctls && !ctls[x].free);
      assert OfSome(heads, d, m, x);
      assert x in ctls && x !in Live(ctls);
    }
  }

  lemma InUseFacts(ctls: Ctls, heads: Slabs, list: seq<nat>, d: nat, m: nat, block: nat, free: map<nat, seq<nat>>, s: nat, x: nat)
    requires AllOk(ctls, heads, list, d, m, block, free) && IsObj(heads, d, m, s, x) && s in heads && x in Live(ctls)
    ensures s in free && SlabOk(ctls, heads, d, m, s, free[s]) && heads[s].inuse > 0 && x > 0 && heads.Keys <= free.Keys
  {
    hide SlabOk;
    InuseCounts(ctls, heads, d, m, s, free[s]);
    var k: nat :| k < m && x == ObjAt(heads[s].addr, d, k);
    AtLeast(heads[s].addr, d, k);
  }
}
