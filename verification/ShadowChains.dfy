/** Shadow objects and their resident pages as values: what a chain lookup finds, and what the steps of the
    collapsing pass of `kernel/vm/shadowd.c` do to it. */
module ShadowChains {
  import opened Wrappers

  // mmobj_t; objects and page frames are named by numbers, for objects their address
  datatype MmObj = MmObj(shadowed: Option<nat>, refcount: int, nrespages: int, respages: seq<nat>)

  // pframe_t
  datatype Frame = Frame(obj: nat, num: nat, pincount: int, dirty: bool)

  type Objs = map<nat, MmObj>
  type Pages = map<nat, Frame>

  // ---------------------------------------------------------------------------------------------
  // Lists

  ghost predicate NoDup(s: seq<nat>) {
    forall i, j :: 0 <= i < j < |s| ==> s[i] != s[j]
  }

  // s without x
  function Without(s: seq<nat>, x: nat): seq<nat>
  {
    if s == [] then []
    else if s[0] == x then s[1..]
    else [s[0]] + Without(s[1..], x)
  }

  lemma {:induction false} WithoutIs(s: seq<nat>, x: nat)
    requires NoDup(s)
    ensures NoDup(Without(s, x))
    ensures forall y :: y in Without(s, x) <==> y in s && y != x
    ensures |Without(s, x)| == if x in s then |s| - 1 else |s|
  {
    if s != [] {
      var t := s[1..];
      assert forall i :: 0 <= i < |t| ==> t[i] == s[i + 1];
      assert s[0] !in t;
      WithoutIs(t, x);
      assert forall y :: y in s <==> y == s[0] || y in t;
      if s[0] != x {
        ConsNoDup(s[0], Without(t, x));
      }
    }
  }

  lemma ConsNoDup(x: nat, s: seq<nat>)
    requires NoDup(s) && x !in s
    ensures NoDup([x] + s) && NoDup(s + [x])
  {
  }

  // ---------------------------------------------------------------------------------------------
  // Chains

  // Ranks make the shadow chains finite.
  ghost predicate Links(objs: Objs, rank: map<nat, nat>) {
    && (forall x :: x in objs ==> x in rank)
    && (forall x :: x in objs && objs[x].shadowed.Some? ==>
          objs[x].shadowed.value in objs && rank[objs[x].shadowed.value] < rank[x])
  }

  // res says which page of which object is in which frame.
  ghost predicate Index(pages: Pages, res: map<(nat, nat), nat>) {
    && (forall p :: p in pages ==> (pages[p].obj, pages[p].num) in res && res[(pages[p].obj, pages[p].num)] == p)
    && (forall id :: id in res ==> res[id] in pages && pages[res[id]].obj == id.0 && pages[res[id]].num == id.1)
  }

  datatype Seen = InFrame(page: nat) | FromBottom(obj: nat)

  // The lookup of a page: in the first object of the chain that has it resident, or else in the object
  // at the bottom.
  ghost function See(objs: Objs, rank: map<nat, nat>, res: map<(nat, nat), nat>, x: nat, n: nat): Seen
    requires Links(objs, rank) && x in objs
    decreases rank[x]
  {
    if (x, n) in res then InFrame(res[(x, n)])
    else if objs[x].shadowed == None then FromBottom(x)
    else See(objs, rank, res, objs[x].shadowed.value, n)
  }

  // The objects right above o.
  ghost function Uppers(objs: Objs, o: nat): set<nat> {
    set x | x in objs && objs[x].shadowed == Some(o)
  }

  // The parents of o: objects above it, and references from elsewhere.
  ghost function Parents(objs: Objs, ext: map<nat, nat>, o: nat): nat
    requires o in ext
  {
    |Uppers(objs, o)| + ext[o]
  }

  ghost predicate SameLinks(objs: Objs, objs': Objs) {
    objs'.Keys == objs.Keys && forall x :: x in objs ==> objs'[x].shadowed == objs[x].shadowed
  }

  lemma SameUppers(objs: Objs, objs': Objs, o: nat)
    requires SameLinks(objs, objs')
    ensures Uppers(objs', o) == Uppers(objs, o)
  {
  }

  lemma {:induction false} SameSee(objs: Objs, objs': Objs, rank: map<nat, nat>, res: map<(nat, nat), nat>, x: nat, n: nat)
    requires Links(objs, rank) && Links(objs', rank) && SameLinks(objs, objs') && x in objs
    ensures See(objs', rank, res, x, n) == See(objs, rank, res, x, n)
    decreases rank[x]
  {
    if objs[x].shadowed.Some? {
      SameSee(objs, objs', rank, res, objs[x].shadowed.value, n);
    }
  }

  // What objects below r see does not depend on the objects above.
  lemma {:induction false} SeeBelow(objs: Objs, rank: map<nat, nat>, res: map<(nat, nat), nat>, res': map<(nat, nat), nat>, x: nat, n: nat)
    requires Links(objs, rank) && x in objs
    requires forall y :: y in objs && rank[y] <= rank[x] ==> ((y, n) in res' <==> (y, n) in res)
    requires forall y :: y in objs && rank[y] <= rank[x] && (y, n) in res ==> res'[(y, n)] == res[(y, n)]
    ensures See(objs, rank, res', x, n) == See(objs, rank, res, x, n)
    decreases rank[x]
  {
    if (x, n) !in res && objs[x].shadowed.Some? {
      SeeBelow(objs, rank, res, res', objs[x].shadowed.value, n);
    }
  }

  lemma OnlyUpper(objs: Objs, src: nat, dest: nat, x: nat)
    requires Uppers(objs, src) == {dest} && x in objs && x != dest
    ensures objs[x].shadowed != Some(src)
  {
    assert x !in Uppers(objs, src);
  }

  // The index after a page of src has gone to dest, or was dropped because dest has one of its own.
  ghost function Migrated(res: map<(nat, nat), nat>, src: nat, dest: nat, num: nat): map<(nat, nat), nat>
    requires (src, num) in res
  {
    if (dest, num) in res then res - {(src, num)} else (res - {(src, num)})[(dest, num) := res[(src, num)]]
  }

  /** Moving a page from an object to its only parent changes no lookup, except from that object. */
  lemma {:induction false} MigrateKeepsSight(objs: Objs, rank: map<nat, nat>, res: map<(nat, nat), nat>, src: nat, dest: nat, num: nat, x: nat, n: nat)
    requires Links(objs, rank) && x in objs && x != src && dest in objs && src in objs && (src, num) in res
    requires Uppers(objs, src) == {dest}
    ensures See(objs, rank, Migrated(res, src, dest, num), x, n) == See(objs, rank, res, x, n)
    decreases rank[x]
  {
    var res' := Migrated(res, src, dest, num);
    assert dest in Uppers(objs, src);
    if x == dest {
      if (dest, n) !in res && n != num {
        SeeBelow(objs, rank, res, res', src, n);
      }
    } else if (x, n) !in res && objs[x].shadowed.Some? {
      var y := objs[x].shadowed.value;
      OnlyUpper(objs, src, dest, x);
      MigrateKeepsSight(objs, rank, res, src, dest, num, y, n);
    }
  }

  // The objects after src, whose only parent is dest, was taken out of the chain.
  ghost predicate Unlinked(objs: Objs, objs': Objs, src: nat, dest: nat) {
    && src in objs && dest in objs && src != dest && objs[dest].shadowed == Some(src)
    && objs'.Keys == objs.Keys - {src}
    && objs'[dest].shadowed == objs[src].shadowed
    && forall x :: x in objs' && x != dest ==> objs'[x].shadowed == objs[x].shadowed
  }

  /** Taking out an object without pages, from under its only parent, changes no lookup. */
  lemma {:induction false} UnlinkKeepsSight(objs: Objs, objs': Objs, rank: map<nat, nat>, res: map<(nat, nat), nat>, src: nat, dest: nat, x: nat, n: nat)
    requires Links(objs, rank) && Links(objs', rank) && Unlinked(objs, objs', src, dest) && x in objs'
    requires Uppers(objs, src) == {dest} && objs[src].shadowed.Some?
    requires forall m: nat :: (src, m) !in res
    ensures See(objs', rank, res, x, n) == See(objs, rank, res, x, n)
    decreases rank[x]
  {
    if (x, n) !in res && objs[x].shadowed.Some? {
      var y := objs[x].shadowed.value;
      if x == dest {
        var z := objs[src].shadowed.value;
        assert (src, n) !in res;
        UnlinkKeepsSight(objs, objs', rank, res, src, dest, z, n);
      } else {
        OnlyUpper(objs, src, dest, x);
        UnlinkKeepsSight(objs, objs', rank, res, src, dest, y, n);
      }
    }
  }

  /** Every object keeps its number of parents when one is taken out of a chain. */
  lemma UnlinkKeepsUppers(objs: Objs, objs': Objs, rank: map<nat, nat>, src: nat, dest: nat, x: nat)
    requires Links(objs, rank) && Unlinked(objs, objs', src, dest) && x in objs'
    requires Uppers(objs, src) == {dest} && objs[src].shadowed.Some?
    ensures |Uppers(objs', x)| == |Uppers(objs, x)|
    ensures x != objs[src].shadowed.value ==> Uppers(objs', x) == Uppers(objs, x)
  {
    var z := objs[src].shadowed.value;
    forall y | y in objs' && y != dest ensures objs[y].shadowed != Some(src) {
      OnlyUpper(objs, src, dest, y);
    }
    if x == z {
      assert Uppers(objs', z) == Uppers(objs, z) - {src} + {dest};
      assert src in Uppers(objs, z) && dest !in Uppers(objs, z);
    } else {
      assert Uppers(objs', x) == Uppers(objs, x);
    }
  }

  // No object strictly between x and the bottom of its chain has a single parent.
  ghost predicate Settled(objs: Objs, rank: map<nat, nat>, ext: map<nat, nat>, x: nat)
    requires Links(objs, rank) && x in objs && objs.Keys <= ext.Keys
    decreases rank[x]
  {
    objs[x].shadowed.Some? ==>
      var o := objs[x].shadowed.value;
      objs[o].shadowed.Some? ==> Parents(objs, ext, o) != 1 && Settled(objs, rank, ext, o)
  }

  lemma {:induction false} SettledSame(objs: Objs, objs': Objs, rank: map<nat, nat>, ext: map<nat, nat>, x: nat)
    requires Links(objs, rank) && Links(objs', rank) && SameLinks(objs, objs') && x in objs && objs.Keys <= ext.Keys
    ensures Settled(objs', rank, ext, x) == Settled(objs, rank, ext, x)
    decreases rank[x]
  {
    if objs[x].shadowed.Some? {
      var o := objs[x].shadowed.value;
      SameUppers(objs, objs', o);
      SettledSame(objs, objs', rank, ext, o);
    }
  }

  /** Taking out an object with a single parent leaves settled chains settled: they do not contain it. */
  lemma {:induction false} SettledUnlink(objs: Objs, objs': Objs, rank: map<nat, nat>, ext: map<nat, nat>, src: nat, dest: nat, x: nat)
    requires Links(objs, rank) && Links(objs', rank) && Unlinked(objs, objs', src, dest) && x in objs' && objs.Keys <= ext.Keys
    requires Uppers(objs, src) == {dest} && ext[src] == 0 && objs[src].shadowed.Some?
    requires Settled(objs, rank, ext, x)
    ensures Settled(objs', rank, ext, x)
    decreases rank[x]
  {
    if objs[x].shadowed.Some? {
      var o := objs[x].shadowed.value;
      if objs[o].shadowed.Some? {
        assert Parents(objs, ext, src) == 1;
        assert o != src && x != dest;
        UnlinkKeepsUppers(objs, objs', rank, src, dest, o);
        SettledUnlink(objs, objs', rank, ext, src, dest, o);
      } else {
        assert o != src && x != dest;
        assert objs'[x].shadowed == Some(o);
      }
    }
  }

  // The chain leads from x to y, and no object after x up to y has a single parent.
  ghost predicate SettledTo(objs: Objs, rank: map<nat, nat>, ext: map<nat, nat>, x: nat, y: nat)
    requires Links(objs, rank) && x in objs && objs.Keys <= ext.Keys
    decreases rank[x]
  {
    x == y ||
    (objs[x].shadowed.Some? &&
     var o := objs[x].shadowed.value;
     objs[o].shadowed.Some? && Parents(objs, ext, o) != 1 && SettledTo(objs, rank, ext, o, y))
  }

  lemma {:induction false} SettledToSame(objs: Objs, objs': Objs, rank: map<nat, nat>, ext: map<nat, nat>, x: nat, y: nat)
    requires Links(objs, rank) && Links(objs', rank) && SameLinks(objs, objs') && x in objs && objs.Keys <= ext.Keys
    ensures SettledTo(objs', rank, ext, x, y) == SettledTo(objs, rank, ext, x, y)
    decreases rank[x]
  {
    if objs[x].shadowed.Some? {
      var o := objs[x].shadowed.value;
      SameUppers(objs, objs', o);
      SettledToSame(objs, objs', rank, ext, o, y);
    }
  }

  lemma {:induction false} SettledToUnlink(objs: Objs, objs': Objs, rank: map<nat, nat>, ext: map<nat, nat>, src: nat, dest: nat, x: nat)
    requires Links(objs, rank) && Links(objs', rank) && Unlinked(objs, objs', src, dest) && x in objs' && objs.Keys <= ext.Keys
    requires Uppers(objs, src) == {dest} && ext[src] == 0 && objs[src].shadowed.Some?
    requires SettledTo(objs, rank, ext, x, dest)
    ensures SettledTo(objs', rank, ext, x, dest)
    decreases rank[x]
  {
    if x != dest {
      var o := objs[x].shadowed.value;
      assert Parents(objs, ext, src) == 1;
      assert o != src;
      UnlinkKeepsUppers(objs, objs', rank, src, dest, o);
      if o != dest {
        SettledToUnlink(objs, objs', rank, ext, src, dest, o);
      } else {
        assert objs'[dest].shadowed.Some?;
      }
    }
  }

  // The chain continues to the next object.
  lemma {:induction false} SettledToNext(objs: Objs, rank: map<nat, nat>, ext: map<nat, nat>, x: nat, y: nat)
    requires Links(objs, rank) && x in objs && y in objs && objs.Keys <= ext.Keys
    requires SettledTo(objs, rank, ext, x, y) && objs[y].shadowed.Some?
    requires var o := objs[y].shadowed.value; objs[o].shadowed.Some? && Parents(objs, ext, o) != 1
    ensures SettledTo(objs, rank, ext, x, objs[y].shadowed.value)
    decreases rank[x]
  {
    if x != y {
      SettledToNext(objs, rank, ext, objs[x].shadowed.value, y);
    }
  }

  lemma {:induction false} SettledJoin(objs: Objs, rank: map<nat, nat>, ext: map<nat, nat>, x: nat, y: nat)
    requires Links(objs, rank) && x in objs && y in objs && objs.Keys <= ext.Keys
    requires SettledTo(objs, rank, ext, x, y) && Settled(objs, rank, ext, y)
    ensures Settled(objs, rank, ext, x)
    decreases rank[x]
  {
    if x != y {
      SettledJoin(objs, rank, ext, objs[x].shadowed.value, y);
    }
  }

  // ---------------------------------------------------------------------------------------------
  // What the pass keeps

  // Objects may disappear, but not those with references from outside; the others see the same pages,
  // have the same number of parents, and stay settled.
  ghost predicate Kept(objs: Objs, res: map<(nat, nat), nat>, objs': Objs, res': map<(nat, nat), nat>, rank: map<nat, nat>, ext: map<nat, nat>)
    requires Links(objs, rank) && Links(objs', rank) && objs.Keys <= ext.Keys
  {
    && objs'.Keys <= objs.Keys
    && (forall x :: x in objs && ext[x] > 0 ==> x in objs')
    && (forall x, n: nat :: x in objs' ==> See(objs', rank, res', x, n) == See(objs, rank, res, x, n))
    && (forall x :: x in objs' ==> Parents(objs', ext, x) == Parents(objs, ext, x))
    && (forall x :: x in objs' && Settled(objs, rank, ext, x) ==> Settled(objs', rank, ext, x))
    && (forall x :: x in objs' ==> objs'[x].shadowed.Some? == objs[x].shadowed.Some?)
  }

  lemma KeptTrans(o0: Objs, r0: map<(nat, nat), nat>, o1: Objs, r1: map<(nat, nat), nat>, o2: Objs, r2: map<(nat, nat), nat>,
                  rank: map<nat, nat>, ext: map<nat, nat>)
    requires Links(o0, rank) && Links(o1, rank) && Links(o2, rank) && o0.Keys <= ext.Keys && o1.Keys <= ext.Keys
    requires Kept(o0, r0, o1, r1, rank, ext) && Kept(o1, r1, o2, r2, rank, ext)
    ensures Kept(o0, r0, o2, r2, rank, ext)
  {
    hide See, Settled, Parents, Links;
  }

  lemma KeptSame(objs: Objs, objs': Objs, res: map<(nat, nat), nat>, rank: map<nat, nat>, ext: map<nat, nat>)
    requires Links(objs, rank) && Links(objs', rank) && SameLinks(objs, objs') && objs.Keys <= ext.Keys
    ensures Kept(objs, res, objs', res, rank, ext)
  {
    hide See, Settled, Links;
    forall x, n: nat | x in objs' ensures See(objs', rank, res, x, n) == See(objs, rank, res, x, n) {
      SameSee(objs, objs', rank, res, x, n);
    }
    forall x | x in objs' ensures Parents(objs', ext, x) == Parents(objs, ext, x) {
      SameUppers(objs, objs', x);
    }
    forall x | x in objs' ensures Settled(objs', rank, ext, x) == Settled(objs, rank, ext, x) {
      SettledSame(objs, objs', rank, ext, x);
    }
  }

  // All objects but src see the same pages.
  ghost predicate SameSight(objs: Objs, res: map<(nat, nat), nat>, res': map<(nat, nat), nat>, rank: map<nat, nat>, src: nat)
    requires Links(objs, rank)
  {
    forall x, n: nat :: x in objs && x != src ==> See(objs, rank, res', x, n) == See(objs, rank, res, x, n)
  }

  lemma SightMigrated(objs: Objs, res: map<(nat, nat), nat>, res1: map<(nat, nat), nat>, rank: map<nat, nat>, src: nat, dest: nat, num: nat)
    requires Links(objs, rank) && SameSight(objs, res, res1, rank, src)
    requires dest in objs && src in objs && (src, num) in res1 && Uppers(objs, src) == {dest}
    ensures SameSight(objs, res, Migrated(res1, src, dest, num), rank, src)
  {
    hide See, Migrated, Uppers, Links;
    forall x, n: nat | x in objs && x != src
      ensures See(objs, rank, Migrated(res1, src, dest, num), x, n) == See(objs, rank, res, x, n)
    {
      MigrateKeepsSight(objs, rank, res1, src, dest, num, x, n);
    }
  }

  lemma KeptUnlinked(objs: Objs, res: map<(nat, nat), nat>, objs': Objs, res': map<(nat, nat), nat>,
                     rank: map<nat, nat>, ext: map<nat, nat>, src: nat, dest: nat)
    requires Links(objs, rank) && Links(objs', rank) && Unlinked(objs, objs', src, dest) && objs.Keys <= ext.Keys
    requires Uppers(objs, src) == {dest} && ext[src] == 0 && objs[src].shadowed.Some?
    requires SameSight(objs, res, res', rank, src) && forall m: nat :: (src, m) !in res'
    ensures Kept(objs, res, objs', res', rank, ext)
  {
    hide See, Settled, Links, Uppers;
    forall x, n: nat | x in objs' ensures See(objs', rank, res', x, n) == See(objs, rank, res, x, n) {
      UnlinkKeepsSight(objs, objs', rank, res', src, dest, x, n);
    }
    forall x | x in objs' ensures Parents(objs', ext, x) == Parents(objs, ext, x) {
      UnlinkKeepsUppers(objs, objs', rank, src, dest, x);
    }
    forall x | x in objs' && Settled(objs, rank, ext, x) ensures Settled(objs', rank, ext, x) {
      SettledUnlink(objs, objs', rank, ext, src, dest, x);
    }
  }

  // An object whose only parent is dest.
  lemma SingleParent(objs: Objs, ext: map<nat, nat>, src: nat, dest: nat)
    requires src in ext && Parents(objs, ext, src) == 1 && dest in objs && objs[dest].shadowed == Some(src)
    ensures Uppers(objs, src) == {dest} && ext[src] == 0
  {
    assert dest in Uppers(objs, src);
    if exists y :: y in Uppers(objs, src) && y != dest {
      var y :| y in Uppers(objs, src) && y != dest;
      assert {y, dest} <= Uppers(objs, src);
      SubsetSize({y, dest}, Uppers(objs, src));
    } else {
      assert forall y :: y in Uppers(objs, src) ==> y == dest;
      assert Uppers(objs, src) == {dest};
    }
  }

  lemma SubsetSize(a: set<nat>, b: set<nat>)
    requires a <= b
    ensures |a| <= |b|
  {
    assert b == a + (b - a);
  }

  lemma HasParent(objs: Objs, ext: map<nat, nat>, src: nat, dest: nat)
    requires src in ext && dest in objs && objs[dest].shadowed == Some(src)
    ensures Parents(objs, ext, src) > 0
  {
    assert dest in Uppers(objs, src);
  }
}
