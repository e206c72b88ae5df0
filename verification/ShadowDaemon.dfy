/** Page frames (`kernel/mm/pframe.c`) and the collapsing pass of the shadow daemon
    (`kernel/vm/shadowd.c`): hash chains, resident lists, page lists and reference counts, all changed in
    place. */
module ShadowDaemon {
  import opened ShadowChains
  import opened Wrappers

  const PF_HASH_SIZE := 17

  // The hash chain of a page; an object is named by its address.
  function HashPage(obj: nat, num: nat): nat {
    (obj + num) % PF_HASH_SIZE
  }

  // ---------------------------------------------------------------------------------------------
  // What the tables agree on

  // The hash chains hold every page once, in its own chain.
  ghost predicate HashOk(hash: seq<seq<nat>>, pages: Pages) {
    |hash| == PF_HASH_SIZE && forall b :: 0 <= b < |hash| ==>
      NoDup(hash[b]) && forall p :: p in hash[b] <==> p in pages && HashPage(pages[p].obj, pages[p].num) == b
  }

  // The resident list of every object holds its pages once, and nrespages counts them.
  ghost predicate ResidentOk(objs: Objs, pages: Pages) {
    && (forall p :: p in pages ==> pages[p].obj in objs)
    && (forall o :: o in objs ==> objs[o].nrespages == |objs[o].respages| && NoDup(objs[o].respages))
    && (forall o, p :: o in objs ==> (p in objs[o].respages <==> p in pages && pages[p].obj == o))
  }

  // Pinned pages are on the pinned list, the others on the list of allocated pages.
  ghost predicate ListsOk(pages: Pages, allocList: seq<nat>, nallocated: int, pinnedList: seq<nat>, npinned: int) {
    && NoDup(allocList) && NoDup(pinnedList) && nallocated == |allocList| && npinned == |pinnedList|
    && (forall p :: p in allocList <==> p in pages && pages[p].pincount == 0)
    && (forall p :: p in pinnedList <==> p in pages && pages[p].pincount != 0)
  }

  // References come from resident pages, parents, and the daemon itself.
  ghost predicate CountsOk(objs: Objs, ext: map<nat, nat>, held: Option<nat>) {
    && objs.Keys <= ext.Keys
    && forall o :: o in objs ==>
         objs[o].refcount == objs[o].nrespages + Parents(objs, ext, o) + Held(held, o)
  }

  function Held(held: Option<nat>, o: nat): nat {
    if held == Some(o) then 1 else 0
  }

  // The pages of shadow objects are dirty, and pinned once.
  ghost predicate ShadowPinned(objs: Objs, pages: Pages) {
    forall p :: p in pages && pages[p].obj in objs && objs[pages[p].obj].shadowed.Some? ==>
      pages[p].pincount == 1 && pages[p].dirty
  }

  // ---------------------------------------------------------------------------------------------
  // One page more, and one page less

  function Listed(objs: Objs, p: nat, o: nat): Objs
    requires o in objs
  {
    objs[o := MmObj(objs[o].shadowed, objs[o].refcount + 1, objs[o].nrespages + 1, [p] + objs[o].respages)]
  }

  function Unlisted(objs: Objs, p: nat, o: nat): Objs
    requires o in objs
  {
    objs[o := MmObj(objs[o].shadowed, objs[o].refcount - 1, objs[o].nrespages - 1, Without(objs[o].respages, p))]
  }

  lemma LinksSame(objs: Objs, objs': Objs, rank: map<nat, nat>)
    requires Links(objs, rank) && SameLinks(objs, objs')
    ensures Links(objs', rank)
  {
  }

  lemma IndexAdd(pages: Pages, res: map<(nat, nat), nat>, p: nat, f: Frame)
    requires Index(pages, res) && p !in pages && (f.obj, f.num) !in res
    ensures Index(pages[p := f], res[(f.obj, f.num) := p])
  {
  }

  lemma IndexRemove(pages: Pages, res: map<(nat, nat), nat>, p: nat)
    requires Index(pages, res) && p in pages
    ensures Index(pages - {p}, res - {(pages[p].obj, pages[p].num)})
  {
  }

  lemma HashAdd(hash: seq<seq<nat>>, pages: Pages, p: nat, f: Frame)
    requires HashOk(hash, pages) && p !in pages
    ensures var b := HashPage(f.obj, f.num); b < |hash| && HashOk(hash[b := [p] + hash[b]], pages[p := f])
  {
    var b := HashPage(f.obj, f.num);
    ConsNoDup(p, hash[b]);
  }

  lemma HashRemove(hash: seq<seq<nat>>, pages: Pages, p: nat)
    requires HashOk(hash, pages) && p in pages
    ensures var b := HashPage(pages[p].obj, pages[p].num); b < |hash| && HashOk(hash[b := Without(hash[b], p)], pages - {p})
  {
    var b := HashPage(pages[p].obj, pages[p].num);
    WithoutIs(hash[b], p);
  }

  lemma ResidentAdd(objs: Objs, pages: Pages, p: nat, f: Frame)
    requires ResidentOk(objs, pages) && p !in pages && f.obj in objs
    ensures ResidentOk(Listed(objs, p, f.obj), pages[p := f])
  {
    ConsNoDup(p, objs[f.obj].respages);
  }

  lemma ResidentRemove(objs: Objs, pages: Pages, p: nat)
    requires ResidentOk(objs, pages) && p in pages
    ensures pages[p].obj in objs && ResidentOk(Unlisted(objs, p, pages[p].obj), pages - {p})
  {
    WithoutIs(objs[pages[p].obj].respages, p);
  }

  lemma ListsAdd(pages: Pages, allocList: seq<nat>, nallocated: int, pinnedList: seq<nat>, npinned: int, p: nat, f: Frame)
    requires ListsOk(pages, allocList, nallocated, pinnedList, npinned) && p !in pages && f.pincount == 0
    ensures ListsOk(pages[p := f], allocList + [p], nallocated + 1, pinnedList, npinned)
  {
    ConsNoDup(p, allocList);
  }

  lemma ListsRemove(pages: Pages, allocList: seq<nat>, nallocated: int, pinnedList: seq<nat>, npinned: int, p: nat)
    requires ListsOk(pages, allocList, nallocated, pinnedList, npinned) && p in pages && pages[p].pincount == 0
    ensures ListsOk(pages - {p}, Without(allocList, p), nallocated - 1, pinnedList, npinned)
  {
    WithoutIs(allocList, p);
  }

  lemma ListsUnpin(pages: Pages, allocList: seq<nat>, nallocated: int, pinnedList: seq<nat>, npinned: int, p: nat)
    requires ListsOk(pages, allocList, nallocated, pinnedList, npinned) && p in pages && pages[p].pincount == 1
    ensures ListsOk(pages[p := pages[p].(pincount := 0)], allocList + [p], nallocated + 1, Without(pinnedList, p), npinned - 1)
  {
    WithoutIs(pinnedList, p);
    ConsNoDup(p, allocList);
  }

  // A page brings one reference and takes it along.
  lemma CountsListed(objs: Objs, ext: map<nat, nat>, held: Option<nat>, p: nat, o: nat)
    requires o in objs && CountsOk(objs, ext, held)
    ensures SameLinks(objs, Listed(objs, p, o)) && CountsOk(Listed(objs, p, o), ext, held)
    ensures SameLinks(objs, Unlisted(objs, p, o)) && CountsOk(Unlisted(objs, p, o), ext, held)
  {
    hide Uppers;
    forall x ensures Uppers(Listed(objs, p, o), x) == Uppers(objs, x) && Uppers(Unlisted(objs, p, o), x) == Uppers(objs, x) {
      SameUppers(objs, Listed(objs, p, o), x);
      SameUppers(objs, Unlisted(objs, p, o), x);
    }
  }

  predicate Below(objs: Objs, o: nat)
    requires o in objs
  {
    objs[o].shadowed.Some? && objs[o].shadowed.value in objs && objs[o].shadowed.value != o
  }

  class Vm {
    var objs: Objs
    var pages: Pages
    var hash: seq<seq<nat>>
    var allocList: seq<nat>
    var nallocated: int
    var pinnedList: seq<nat>
    var npinned: int
    // which page is where, how deep the objects stand, and the references from outside
    ghost var res: map<(nat, nat), nat>
    ghost var rank: map<nat, nat>
    ghost var ext: map<nat, nat>
    // the object the daemon holds on to
    ghost var held: Option<nat>

    ghost predicate TablesOk()
      reads this
    {
      && Links(objs, rank) && Index(pages, res) && HashOk(hash, pages) && ResidentOk(objs, pages)
      && ListsOk(pages, allocList, nallocated, pinnedList, npinned) && CountsOk(objs, ext, held)
    }

    // pframe_get_resident
    method GetResident(o: nat, num: nat) returns (r: Option<nat>)
      requires TablesOk()
      modifies this`allocList
      ensures TablesOk()
      ensures r == if (o, num) in res then Some(res[(o, num)]) else None
      ensures allocList == if r.Some? && pages[r.value].pincount == 0 then Without(old(allocList), r.value) + [r.value] else old(allocList)
    {
      hide Links, ResidentOk, CountsOk;
      var chain := hash[HashPage(o, num)];
      assert (o, num) in res ==> res[(o, num)] in chain;
      for i := 0 to |chain|
        invariant allocList == old(allocList)
        invariant forall k :: 0 <= k < i ==> !(pages[chain[k]].obj == o && pages[chain[k]].num == num)
      {
        var p := chain[i];
        assert p in pages;
        if pages[p].obj == o && pages[p].num == num {
          if pages[p].pincount == 0 {
            WithoutIs(allocList, p);
            ConsNoDup(p, Without(allocList, p));
            allocList := Without(allocList, p) + [p];
          }
          return Some(p);
        }
      }
      return None;
    }

    // mmo_ops->ref
    method Ref(o: nat)
      requires o in objs
      modifies this`objs
      ensures objs == old(objs)[o := old(objs)[o].(refcount := old(objs)[o].refcount + 1)]
    {
      objs := objs[o := objs[o].(refcount := objs[o].refcount + 1)];
    }

    // mmo_ops->put: an object whose references are all from its own resident pages is released; here it
    // has no pages any more, and what it shadows is not released in turn.
    method Put(o: nat)
      requires o in objs && objs[o].refcount - 1 >= objs[o].nrespages
      requires objs[o].refcount - 1 == objs[o].nrespages ==> objs[o].nrespages == 0 && Below(objs, o)
      requires objs[o].refcount - 1 == objs[o].nrespages ==>
        objs[objs[o].shadowed.value].refcount - 1 > objs[objs[o].shadowed.value].nrespages
      modifies this`objs
      ensures objs == PutSpec(old(objs), o)
    {
      var m := objs[o].(refcount := objs[o].refcount - 1);
      if m.refcount == m.nrespages {
        objs := objs - {o};
        var z := m.shadowed.value;
        objs := objs[z := objs[z].(refcount := objs[z].refcount - 1)];
      } else {
        objs := objs[o := m];
      }
    }

    // Takes a page off the resident list of its object, which then loses the page's reference.
    method Unlist(p: nat, o: nat)
      requires o in objs && objs[o].refcount - 1 > objs[o].nrespages - 1
      modifies this`objs
      ensures objs == Unlisted(old(objs), p, o)
    {
      objs := objs[o := objs[o].(respages := Without(objs[o].respages, p))];
      objs := objs[o := objs[o].(nrespages := objs[o].nrespages - 1)];
      Put(o);
    }

    // Puts a page on the resident list of an object, which gains a reference.
    method List(p: nat, o: nat)
      requires o in objs
      modifies this`objs
      ensures objs == Listed(old(objs), p, o)
    {
      objs := objs[o := objs[o].(respages := [p] + objs[o].respages)];
      objs := objs[o := objs[o].(nrespages := objs[o].nrespages + 1)];
      Ref(o);
    }

    // pframe_alloc; frame is what the allocators hand out, if anything.
    method Alloc(o: nat, num: nat, frame: Option<nat>) returns (r: Option<nat>)
      requires TablesOk() && o in objs && (o, num) !in res && (frame.Some? ==> frame.value !in pages)
      modifies this
      ensures TablesOk() && r == frame && rank == old(rank) && ext == old(ext) && held == old(held)
      ensures frame == None ==> unchanged(this)
      ensures frame.Some? ==>
        res == old(res)[(o, num) := frame.value] && pages == old(pages)[frame.value := Frame(o, num, 0, false)]
      ensures frame.Some? ==> SameLinks(old(objs), objs)
    {
      hide Links, HashOk, ResidentOk, ListsOk, CountsOk, Index, Uppers, HashPage, SameLinks;
      if frame == None {
        return None;
      }
      var p := frame.value;
      var b := HashPage(o, num);
      ghost var objs0 := objs;
      ListsAdd(pages, allocList, nallocated, pinnedList, npinned, p, Frame(o, num, 0, false));
      HashAdd(hash, pages, p, Frame(o, num, 0, false));
      ResidentAdd(objs, pages, p, Frame(o, num, 0, false));
      IndexAdd(pages, res, p, Frame(o, num, 0, false));
      CountsListed(objs, ext, held, p, o);
      nallocated := nallocated + 1;
      allocList := allocList + [p];
      pages := pages[p := Frame(o, num, 0, false)];
      hash := hash[b := [p] + hash[b]];
      List(p, o);
      res := res[(o, num) := p];
      LinksSame(objs0, objs, rank);
      return Some(p);
    }

    // pframe_unpin, for a page that is pinned once
    method Unpin(p: nat)
      requires TablesOk() && p in pages && pages[p].pincount == 1
      modifies this`pages, this`allocList, this`nallocated, this`pinnedList, this`npinned
      ensures TablesOk() && pages == old(pages)[p := old(pages)[p].(pincount := 0)]
    {
      hide Links, Index, HashOk, ResidentOk, ListsOk, CountsOk;
      ListsUnpin(pages, allocList, nallocated, pinnedList, npinned, p);
      FlagsOnly(objs, pages, res, hash, p, pages[p].(pincount := 0));
      pages := pages[p := pages[p].(pincount := pages[p].pincount - 1)];
      pinnedList := Without(pinnedList, p);
      npinned := npinned - 1;
      allocList := allocList + [p];
      nallocated := nallocated + 1;
    }

    // pframe_clean; failed is the outcome of the object's cleanpage.
    method Clean(p: nat, failed: bool)
      requires TablesOk() && p in pages && pages[p].dirty && pages[p].pincount == 0
      modifies this`pages
      ensures TablesOk() && pages == old(pages)[p := old(pages)[p].(dirty := failed)]
    {
      hide Links, Index, HashOk, ResidentOk, CountsOk;
      ghost var pages0 := pages;
      FlagsOnly(objs, pages, res, hash, p, pages[p].(dirty := failed));
      pages := pages[p := pages[p].(dirty := false)];
      if failed {
        pages := pages[p := pages[p].(dirty := true)];
      }
      assert pages == pages0[p := pages0[p].(dirty := failed)];
    }

    // pframe_free
    method Free(p: nat)
      requires TablesOk() && p in pages && pages[p].pincount == 0
      requires pages[p].obj in ext && Parents(objs, ext, pages[p].obj) > 0
      modifies this
      ensures TablesOk() && rank == old(rank) && ext == old(ext) && held == old(held)
      ensures pages == old(pages) - {p} && res == old(res) - {(old(pages)[p].obj, old(pages)[p].num)}
      ensures objs == Unlisted(old(objs), p, old(pages)[p].obj)
    {
      hide Links, Index, HashOk, ResidentOk, ListsOk, CountsOk, Parents, HashPage, SameLinks, Without;
      var o, b := pages[p].obj, HashPage(pages[p].obj, pages[p].num);
      PageParts(objs, pages, ext, held, p);
      ListsRemove(pages, allocList, nallocated, pinnedList, npinned, p);
      HashRemove(hash, pages, p);
      ResidentRemove(objs, pages, p);
      IndexRemove(pages, res, p);
      CountsListed(objs, ext, held, p, o);
      res := res - {(pages[p].obj, pages[p].num)};
      hash := hash[b := Without(hash[b], p)];
      nallocated := nallocated - 1;
      allocList := Without(allocList, p);
      pages := pages - {p};
      Unlist(p, o);
      LinksSame(old(objs), objs, rank);
    }

    // A page goes to another object, which does not have it.
    method MoveFrame(p: nat, dest: nat)
      requires TablesOk() && p in pages && dest in objs && pages[p].obj != dest && (dest, pages[p].num) !in res
      requires pages[p].obj in ext && Parents(objs, ext, pages[p].obj) > 0
      modifies this
      ensures TablesOk() && rank == old(rank) && ext == old(ext) && held == old(held)
      ensures res == (old(res) - {(old(pages)[p].obj, old(pages)[p].num)})[(dest, old(pages)[p].num) := p]
      ensures pages == old(pages)[p := old(pages)[p].(obj := dest)]
      ensures old(pages)[p].obj in old(objs) && objs == Listed(Unlisted(old(objs), p, old(pages)[p].obj), p, dest)
    {
      hide Links, HashOk, ResidentOk, ListsOk, CountsOk, Index, Uppers, HashPage, SameLinks;
      ghost var objs0, pages0, f := objs, pages, pages[p].(obj := dest);
      var src, b, c := pages[p].obj, HashPage(pages[p].obj, pages[p].num), HashPage(dest, pages[p].num);
      PageParts(objs, pages, ext, held, p);
      HashRemove(hash, pages, p);
      HashAdd(hash[b := Without(hash[b], p)], pages - {p}, p, f);
      IndexRemove(pages, res, p);
      IndexAdd(pages - {p}, res - {(src, f.num)}, p, f);
      ResidentRemove(objs, pages, p);
      ResidentAdd(Unlisted(objs, p, src), pages - {p}, p, f);
      CountsListed(objs, ext, held, p, src);
      CountsListed(Unlisted(objs, p, src), ext, held, p, dest);
      ListsSame(pages, allocList, nallocated, pinnedList, npinned, p, f);
      pages := pages[p := pages[p].(obj := dest)];
      assert (pages0 - {p})[p := f] == pages;
      hash := hash[b := Without(hash[b], p)];
      Unlist(p, src);
      hash := hash[c := [p] + hash[c]];
      List(p, dest);
      res := (res - {(src, f.num)})[(dest, f.num) := p];
      LinksSame(objs0, Unlisted(objs0, p, src), rank);
      LinksSame(Unlisted(objs0, p, src), objs, rank);
    }

    // A page that is not needed any more is unpinned, cleaned and freed.
    method DropFrame(p: nat)
      requires TablesOk() && p in pages && pages[p].pincount == 1 && pages[p].dirty
      requires pages[p].obj in ext && Parents(objs, ext, pages[p].obj) > 0
      modifies this
      ensures TablesOk() && rank == old(rank) && ext == old(ext) && held == old(held)
      ensures pages == old(pages) - {p} && res == old(res) - {(old(pages)[p].obj, old(pages)[p].num)}
      ensures old(pages)[p].obj in old(objs) && objs == Unlisted(old(objs), p, old(pages)[p].obj)
    {
      hide Links, HashOk, ResidentOk, ListsOk, CountsOk, Index, Parents, Unlisted;
      ghost var pages0 := pages;
      PageParts(objs, pages, ext, held, p);
      Unpin(p);
      var failed: bool := *;
      Clean(p, failed);
      Free(p);
      assert pages == pages0 - {p};
    }

    /** pframe_migrate: a page goes to another object, unless that has a newer version of it. */
    method Migrate(p: nat, dest: nat)
      requires TablesOk() && p in pages && dest in objs && pages[p].obj != dest
      requires pages[p].pincount == 1 && pages[p].dirty
      requires pages[p].obj in ext && Parents(objs, ext, pages[p].obj) > 0
      modifies this
      ensures TablesOk() && rank == old(rank) && ext == old(ext) && held == old(held)
      ensures (old(pages)[p].obj, old(pages)[p].num) in old(res)
      ensures res == Migrated(old(res), old(pages)[p].obj, dest, old(pages)[p].num)
      ensures SameLinks(old(objs), objs) && old(pages)[p].obj in objs
      ensures objs[old(pages)[p].obj].respages == Without(old(objs)[old(pages)[p].obj].respages, p)
      ensures forall q :: q in pages ==> q in old(pages) && pages[q] == if q == p then old(pages)[p].(obj := dest) else old(pages)[q]
    {
      hide Links, HashOk, ResidentOk, ListsOk, CountsOk, Index, Parents;
      IndexAt(pages, res, p);
      PageParts(objs, pages, ext, held, p);
      var newer := GetResident(dest, pages[p].num);
      if newer != None {
        DropFrame(p);
      } else {
        MoveFrame(p, dest);
      }
    }

    // Everything the daemon relies on: the tables, the pins of shadow pages, and, as it asserts, that no
    // shadow object has more than two parents.
    ghost predicate Ready()
      reads this
    {
      TablesOk() && ShadowPinned(objs, pages) && Collapsible(objs, ext)
    }

    // The pages of src all go to its only parent dest.
    method Drain(src: nat, dest: nat)
      requires Ready() && src in objs && dest in objs && src in ext && src != dest
      requires Uppers(objs, src) == {dest} && objs[src].shadowed.Some? && objs[dest].shadowed.Some?
      modifies this
      ensures Ready() && rank == old(rank) && ext == old(ext) && held == old(held)
      ensures SameLinks(old(objs), objs) && SameSight(old(objs), old(res), res, rank, src)
      ensures objs[src].respages == []
    {
      hide Links, HashOk, ResidentOk, ListsOk, CountsOk, Index, See, Uppers, Collapsible, SameSight, Migrated;
      ghost var objs0, res0 := objs, res;
      var frames := objs[src].respages;
      DrainStart(objs, pages, res, rank, ext, src, dest);
      for i := 0 to |frames|
        invariant Ready() && rank == old(rank) && ext == old(ext) && held == old(held)
        invariant SameLinks(objs0, objs) && SameSight(objs0, res0, res, rank, src)
        invariant objs[src].respages == frames[i..]
      {
        var p := frames[i];
        ghost var objs1, res1, pages1, num := objs, res, pages, if p in pages then pages[p].num else 0;
        assert objs[src].respages[0] == p;
        DrainPage(objs0, objs, pages, res, ext, src, dest, p);
        Migrate(p, dest);
        SightMigrated(objs0, res0, res1, rank, src, dest, num);
        PinnedMigrated(objs1, objs, pages1, pages, src, dest, p);
        assert Without(frames[i..], p) == frames[i + 1..];
        CollapsibleSame(objs1, objs, ext);
      }
    }

    // An object without pages is taken out from under its only parent, and released.
    method TakeOut(src: nat, dest: nat)
      requires Ready() && held == Some(dest) && src in objs && dest in objs && src in ext && src != dest
      requires Uppers(objs, src) == {dest} && ext[src] == 0 && objs[src].shadowed.Some? && objs[dest].shadowed == Some(src)
      requires objs[src].respages == []
      modifies this`objs
      ensures Ready() && Unlinked(old(objs), objs, src, dest)
      ensures forall m: nat :: (src, m) !in res
    {
      hide HashOk, ResidentOk, ListsOk, CountsOk, Index, See, Uppers, Collapsible, ShadowPinned;
      ghost var objs0 := objs;
      var z := objs[src].shadowed.value;
      BeforeTakeOut(objs, pages, res, rank, ext, src, dest);
      objs := objs[dest := objs[dest].(shadowed := objs[src].shadowed)];
      Ref(z);
      Put(src);
      ghost var rest: Objs := map x | x in objs0 && x != src :: objs0[x];
      assert objs == rest[dest := objs0[dest].(shadowed := Some(z))];
      AfterTakeOut(objs0, objs, pages, rank, ext, src, dest);
    }

    // Takes a reference to an object, in exchange for the one held so far.
    method Hold(o: nat, prev: Option<nat>)
      requires Ready() && held == prev && o in objs && prev != Some(o)
      requires prev.Some? ==> prev.value in objs && prev.value in ext && Parents(objs, ext, prev.value) > 0
      modifies this`objs, this`held
      ensures Ready() && held == Some(o) && SameLinks(old(objs), objs)
    {
      hide Links, HashOk, ListsOk, Index, ResidentOk, CountsOk, ShadowPinned, Collapsible, Parents, SameLinks;
      ghost var objs0 := objs;
      Ref(o);
      if prev.Some? {
        RefsOf(objs0, ext, held, prev.value);
        Put(prev.value);
      }
      held := Some(o);
      HeldSame(objs0, objs, pages, rank, ext, prev, held);
    }

    method Release(last: nat)
      requires Ready() && held == Some(last) && last in objs && last in ext && Parents(objs, ext, last) > 0
      modifies this`objs, this`held
      ensures Ready() && held == None && SameLinks(old(objs), objs)
    {
      hide Links, HashOk, ListsOk, Index, ResidentOk, CountsOk, ShadowPinned, Collapsible, Parents, SameLinks;
      ghost var objs0 := objs;
      RefsOf(objs0, ext, held, last);
      Put(last);
      held := None;
      HeldSame(objs0, objs, pages, rank, ext, Some(last), None);
    }

    /** One vmarea: every intermediate shadow object with a single parent is emptied into that parent and
        taken out of the chain. No lookup changes, and the chain is settled. */
    method CollapseChain(top: nat)
      requires Ready() && held == None && top in objs && top in ext && ext[top] > 0
      modifies this
      ensures Ready() && held == None && rank == old(rank) && ext == old(ext)
      ensures Kept(old(objs), old(res), objs, res, rank, ext)
      ensures top in objs && Settled(objs, rank, ext, top)
    {
      hide Links, HashOk, ResidentOk, ListsOk, CountsOk, Index, See, Uppers, SameSight, Migrated, ShadowPinned,
        Kept, Settled, SettledTo, SameLinks, Unlinked, Parents, Collapsible;
      ghost var objs0, res0 := objs, res;
      var last, o := top, objs[top].shadowed;
      Hold(last, None);
      ChainStart(objs0, objs, res, rank, ext, top);
      LinkIn(objs, rank, last);
      while o != None && objs[o.value].shadowed != None
        invariant Ready() && held == Some(last) && rank == old(rank) && ext == old(ext)
        invariant last in objs && top in objs && o == objs[last].shadowed && objs.Keys <= ext.Keys
        invariant Kept(objs0, res0, objs, res, rank, ext) && SettledTo(objs, rank, ext, top, last)
        invariant Parents(objs, ext, last) > 0 && (o.Some? ==> o.value in objs)
        decreases RankOf(rank, o)
      {
        ghost var objs1, res1 := objs, res;
        NextParts(objs, rank, ext, held, last);
        var shadow := objs[o.value].shadowed;
        if objs[o.value].refcount - objs[o.value].nrespages == 1 {
          SingleParent(objs, ext, o.value, last);
          Drain(o.value, last);
          ghost var objs2 := objs;
          DrainedParts(objs1, objs, rank, ext, o.value, last);
          TakeOut(o.value, last);
          ChainShorter(objs0, res0, objs1, res1, objs2, objs, res, rank, ext, top, o.value, last);
        } else {
          Hold(o.value, Some(last));
          ChainLonger(objs0, res0, objs1, objs, res, rank, ext, top, last);
          last := o.value;
        }
        o := shadow;
        LinkIn(objs, rank, last);
      }
      ghost var objs3 := objs;
      ChainEnd(objs, rank, ext, top, last);
      Release(last);
      ChainReleased(objs0, res0, objs3, objs, res, rank, ext, top);
    }

    /** One pass of the daemon over the vmareas of all running processes: every lookup from an object that
        is still there finds the same page, and no visited chain has an intermediate shadow object with a
        single parent any more. */
    method Pass(vmas: seq<nat>)
      requires Ready() && held == None
      requires forall v :: 0 <= v < |vmas| ==> vmas[v] in objs && vmas[v] in ext && ext[vmas[v]] > 0
      modifies this
      ensures Ready() && held == None && rank == old(rank) && ext == old(ext)
      ensures Kept(old(objs), old(res), objs, res, rank, ext)
      ensures forall v :: 0 <= v < |vmas| ==> vmas[v] in objs && Settled(objs, rank, ext, vmas[v])
    {
      hide See, Settled, Parents, Links, HashOk, ListsOk, Index, CountsOk, ResidentOk, ShadowPinned, SameLinks;
      ghost var objs0, res0 := objs, res;
      LinksRefl(objs, rank);
      KeptSame(objs, objs, res, rank, ext);
      for i := 0 to |vmas|
        invariant Ready() && held == None && rank == old(rank) && ext == old(ext)
        invariant objs0.Keys <= ext.Keys && Kept(objs0, res0, objs, res, rank, ext)
        invariant forall v :: 0 <= v < i ==> vmas[v] in objs && Settled(objs, rank, ext, vmas[v])
      {
        ghost var objs1, res1 := objs, res;
        CollapseChain(vmas[i]);
        KeptTrans(objs0, res0, objs1, res1, objs, res, rank, ext);
      }
    }
  }

  lemma LinksRefl(objs: Objs, rank: map<nat, nat>)
    ensures SameLinks(objs, objs)
  {
  }

  ghost function RankOf(rank: map<nat, nat>, o: Option<nat>): nat {
    if o.Some? && o.value in rank then rank[o.value] + 1 else 0
  }

  lemma LinkIn(objs: Objs, rank: map<nat, nat>, x: nat)
    requires Links(objs, rank) && x in objs
    ensures objs[x].shadowed.Some? ==> objs[x].shadowed.value in objs
  {
  }

  // Holding on to the top of a chain.
  lemma ChainStart(objs: Objs, objs': Objs, res: map<(nat, nat), nat>, rank: map<nat, nat>, ext: map<nat, nat>, top: nat)
    requires Links(objs, rank) && Links(objs', rank) && SameLinks(objs, objs') && top in objs && top in ext && ext[top] > 0
    requires Collapsible(objs', ext)
    ensures objs.Keys <= ext.Keys && objs'.Keys == objs.Keys && objs'[top].shadowed == objs[top].shadowed
    ensures Kept(objs, res, objs', res, rank, ext) && SettledTo(objs', rank, ext, top, top) && Parents(objs', ext, top) > 0
  {
    KeptSame(objs, objs', res, rank, ext);
  }

  // The object below last, which is itself a shadow object.
  lemma NextParts(objs: Objs, rank: map<nat, nat>, ext: map<nat, nat>, held: Option<nat>, last: nat)
    requires Links(objs, rank) && last in objs && objs[last].shadowed.Some? && CountsOk(objs, ext, held) && held == Some(last)
    ensures var o := objs[last].shadowed.value;
      o in objs && o in ext && o != last && rank[o] < rank[last] && Parents(objs, ext, o) > 0
      && objs[o].refcount - objs[o].nrespages == Parents(objs, ext, o)
      && (objs[o].shadowed.Some? ==> RankOf(rank, objs[o].shadowed) < RankOf(rank, Some(o)))
  {
    HasParent(objs, ext, objs[last].shadowed.value, last);
  }

  lemma DrainedParts(objs: Objs, objs': Objs, rank: map<nat, nat>, ext: map<nat, nat>, src: nat, dest: nat)
    requires Links(objs, rank) && SameLinks(objs, objs') && src in objs && dest in objs && objs[dest].shadowed == Some(src)
    ensures src in objs' && dest in objs' && Uppers(objs', src) == Uppers(objs, src) && objs'[src].shadowed == objs[src].shadowed && objs'[dest].shadowed == Some(src)
  {
    SameUppers(objs, objs', src);
  }

  lemma SightSame(objs: Objs, objs': Objs, res: map<(nat, nat), nat>, res': map<(nat, nat), nat>, rank: map<nat, nat>, src: nat)
    requires Links(objs, rank) && Links(objs', rank) && SameLinks(objs, objs') && SameSight(objs, res, res', rank, src)
    ensures SameSight(objs', res, res', rank, src)
  {
    hide See, Links;
    forall x, n: nat | x in objs' && x != src ensures See(objs', rank, res', x, n) == See(objs', rank, res, x, n) {
      SameSee(objs, objs', rank, res', x, n);
      SameSee(objs, objs', rank, res, x, n);
    }
  }

  lemma ChainShorter(o0: Objs, r0: map<(nat, nat), nat>, o1: Objs, r1: map<(nat, nat), nat>, o2: Objs, o3: Objs, r3: map<(nat, nat), nat>,
                     rank: map<nat, nat>, ext: map<nat, nat>, top: nat, src: nat, dest: nat)
    requires Links(o0, rank) && Links(o1, rank) && Links(o2, rank) && Links(o3, rank)
    requires o0.Keys <= ext.Keys && o1.Keys <= ext.Keys && Kept(o0, r0, o1, r1, rank, ext)
    requires SameLinks(o1, o2) && SameSight(o1, r1, r3, rank, src) && Unlinked(o2, o3, src, dest)
    requires Uppers(o1, src) == {dest} && ext[src] == 0 && o1[src].shadowed.Some? && (forall m: nat :: (src, m) !in r3)
    requires top in o1 && SettledTo(o1, rank, ext, top, dest) && top in ext && ext[top] > 0 && Parents(o1, ext, dest) > 0
    ensures o3.Keys <= ext.Keys && Kept(o0, r0, o3, r3, rank, ext)
    ensures top in o3 && SettledTo(o3, rank, ext, top, dest) && dest in ext && Parents(o3, ext, dest) > 0
    ensures dest in o3 && o3[dest].shadowed == o1[src].shadowed
  {
    hide See, Settled, Uppers, Links, Kept, SettledTo, SameSight;
    ShorterLinks(o1, o2, o3, rank, ext, src, dest);
    SightSame(o1, o2, r1, r3, rank, src);
    KeptSame(o1, o2, r1, rank, ext);
    KeptUnlinked(o2, r1, o3, r3, rank, ext, src, dest);
    KeptTrans(o0, r0, o1, r1, o2, r1, rank, ext);
    KeptTrans(o0, r0, o2, r1, o3, r3, rank, ext);
    SettledToSame(o1, o2, rank, ext, top, dest);
    SettledToUnlink(o2, o3, rank, ext, src, dest, top);
  }

  lemma ShorterLinks(o1: Objs, o2: Objs, o3: Objs, rank: map<nat, nat>, ext: map<nat, nat>, src: nat, dest: nat)
    requires Links(o1, rank) && Links(o2, rank) && Links(o3, rank) && SameLinks(o1, o2) && Unlinked(o2, o3, src, dest)
    requires Uppers(o1, src) == {dest} && src in o1 && o1[src].shadowed.Some? && o1.Keys <= ext.Keys
    requires dest in o1 && Parents(o1, ext, dest) > 0
    ensures Uppers(o2, src) == {dest} && o3.Keys <= o1.Keys && o2.Keys == o1.Keys
    ensures dest in o3 && dest in ext && Parents(o3, ext, dest) > 0 && o3[dest].shadowed == o1[src].shadowed
  {
    hide Uppers, Links;
    SameUppers(o1, o2, src);
    SameUppers(o1, o2, dest);
    UnlinkKeepsUppers(o2, o3, rank, src, dest, dest);
  }

  lemma ChainLonger(o0: Objs, r0: map<(nat, nat), nat>, o1: Objs, o2: Objs, res: map<(nat, nat), nat>,
                    rank: map<nat, nat>, ext: map<nat, nat>, top: nat, last: nat)
    requires Links(o0, rank) && Links(o1, rank) && Links(o2, rank) && o0.Keys <= ext.Keys && o1.Keys <= ext.Keys
    requires Kept(o0, r0, o1, res, rank, ext) && SameLinks(o1, o2) && top in o1 && last in o1
    requires SettledTo(o1, rank, ext, top, last) && o1[last].shadowed.Some?
    requires var o := o1[last].shadowed.value; o in o1 && o1[o].shadowed.Some? && Parents(o1, ext, o) > 1
    ensures Kept(o0, r0, o2, res, rank, ext) && o2.Keys == o1.Keys && o2[last].shadowed == o1[last].shadowed
    ensures SettledTo(o2, rank, ext, top, o1[last].shadowed.value)
    ensures var o := o1[last].shadowed.value; o2[o].shadowed == o1[o].shadowed && Parents(o2, ext, o) > 0
  {
    hide See, Settled, Uppers, Links, Kept, SettledTo;
    KeptSame(o1, o2, res, rank, ext);
    KeptTrans(o0, r0, o1, res, o2, res, rank, ext);
    SettledToNext(o1, rank, ext, top, last);
    SettledToSame(o1, o2, rank, ext, top, o1[last].shadowed.value);
    SameUppers(o1, o2, o1[last].shadowed.value);
  }

  lemma ChainEnd(objs: Objs, rank: map<nat, nat>, ext: map<nat, nat>, top: nat, last: nat)
    requires Links(objs, rank) && top in objs && last in objs && objs.Keys <= ext.Keys && SettledTo(objs, rank, ext, top, last)
    requires objs[last].shadowed.Some? ==> objs[last].shadowed.value in objs && objs[objs[last].shadowed.value].shadowed == None
    ensures Settled(objs, rank, ext, top)
  {
    hide Uppers;
    SettledJoin(objs, rank, ext, top, last);
  }

  lemma ChainReleased(o0: Objs, r0: map<(nat, nat), nat>, o1: Objs, o2: Objs, res: map<(nat, nat), nat>,
                      rank: map<nat, nat>, ext: map<nat, nat>, top: nat)
    requires Links(o0, rank) && Links(o1, rank) && Links(o2, rank) && o0.Keys <= ext.Keys && o1.Keys <= ext.Keys
    requires Kept(o0, r0, o1, res, rank, ext) && SameLinks(o1, o2) && top in o1 && Settled(o1, rank, ext, top)
    ensures Kept(o0, r0, o2, res, rank, ext) && top in o2 && Settled(o2, rank, ext, top)
  {
    hide See, Uppers, Links, Kept;
    KeptSame(o1, o2, res, rank, ext);
    KeptTrans(o0, r0, o1, res, o2, res, rank, ext);
    SettledSame(o1, o2, rank, ext, top);
  }

  ghost predicate Collapsible(objs: Objs, ext: map<nat, nat>)
  {
    objs.Keys <= ext.Keys && forall o :: o in objs && objs[o].shadowed.Some? ==> Parents(objs, ext, o) <= 2
  }

  lemma CollapsibleSame(objs: Objs, objs': Objs, ext: map<nat, nat>)
    requires Collapsible(objs, ext) && SameLinks(objs, objs')
    ensures Collapsible(objs', ext)
  {
    forall o ensures Uppers(objs', o) == Uppers(objs, o) {
      SameUppers(objs, objs', o);
    }
  }

  lemma DrainStart(objs: Objs, pages: Pages, res: map<(nat, nat), nat>, rank: map<nat, nat>, ext: map<nat, nat>, src: nat, dest: nat)
    requires Links(objs, rank)
    ensures SameLinks(objs, objs) && SameSight(objs, res, res, rank, src)
  {
    hide See;
  }

  // The next page of src can be migrated.
  lemma DrainPage(objs0: Objs, objs: Objs, pages: Pages, res: map<(nat, nat), nat>, ext: map<nat, nat>, src: nat, dest: nat, p: nat)
    requires ResidentOk(objs, pages) && Index(pages, res) && ShadowPinned(objs, pages) && SameLinks(objs0, objs)
    requires src in objs && src in ext && p in objs[src].respages && objs[src].shadowed.Some?
    requires Uppers(objs0, src) == {dest} && dest in objs
    ensures p in pages && pages[p].obj == src && pages[p].pincount == 1 && pages[p].dirty
    ensures (src, pages[p].num) in res && Parents(objs, ext, src) > 0
  {
    SameUppers(objs0, objs, src);
    assert dest in Uppers(objs, src);
  }

  lemma IndexAt(pages: Pages, res: map<(nat, nat), nat>, p: nat)
    requires Index(pages, res) && p in pages
    ensures (pages[p].obj, pages[p].num) in res && res[(pages[p].obj, pages[p].num)] == p
  {
  }

  lemma ListsSame(pages: Pages, allocList: seq<nat>, nallocated: int, pinnedList: seq<nat>, npinned: int, p: nat, f: Frame)
    requires ListsOk(pages, allocList, nallocated, pinnedList, npinned) && p in pages && f.pincount == pages[p].pincount
    ensures ListsOk(pages[p := f], allocList, nallocated, pinnedList, npinned)
  {
  }

  // Pin counts and dirty bits do not move a page.
  lemma FlagsOnly(objs: Objs, pages: Pages, res: map<(nat, nat), nat>, hash: seq<seq<nat>>, p: nat, f: Frame)
    requires p in pages && f.obj == pages[p].obj && f.num == pages[p].num
    requires Index(pages, res) && HashOk(hash, pages) && ResidentOk(objs, pages)
    ensures Index(pages[p := f], res) && HashOk(hash, pages[p := f]) && ResidentOk(objs, pages[p := f])
  {
  }

  lemma PageParts(objs: Objs, pages: Pages, ext: map<nat, nat>, held: Option<nat>, p: nat)
    requires ResidentOk(objs, pages) && CountsOk(objs, ext, held) && p in pages
    ensures pages[p].obj in objs && pages[p].obj in ext
    ensures objs[pages[p].obj].refcount >= objs[pages[p].obj].nrespages + Parents(objs, ext, pages[p].obj)
  {
  }

  function PutSpec(objs: Objs, o: nat): Objs
    requires o in objs
    requires objs[o].refcount - 1 == objs[o].nrespages ==> Below(objs, o)
  {
    if objs[o].refcount - 1 == objs[o].nrespages then
      var z := objs[o].shadowed.value;
      (objs - {o})[z := objs[z].(refcount := objs[z].refcount - 1)]
    else objs[o := objs[o].(refcount := objs[o].refcount - 1)]
  }

  // Holding on to another object changes nothing but reference counts.
  lemma HeldSame(objs: Objs, objs': Objs, pages: Pages, rank: map<nat, nat>, ext: map<nat, nat>, held: Option<nat>, held': Option<nat>)
    requires Links(objs, rank) && ResidentOk(objs, pages) && ShadowPinned(objs, pages) && Collapsible(objs, ext)
    requires CountsOk(objs, ext, held) && objs'.Keys == objs.Keys
    requires forall o :: o in objs ==> objs'[o] == objs[o].(refcount := objs[o].refcount + Held(held', o) - Held(held, o))
    ensures SameLinks(objs, objs') && Links(objs', rank) && ResidentOk(objs', pages) && ShadowPinned(objs', pages)
    ensures CountsOk(objs', ext, held') && Collapsible(objs', ext)
  {
    hide Uppers, Links, CountsOk, ResidentOk, ShadowPinned;
    HeldLinks(objs, objs', pages, rank);
    HeldCounts(objs, objs', ext, held, held');
    CollapsibleSame(objs, objs', ext);
  }

  lemma HeldLinks(objs: Objs, objs': Objs, pages: Pages, rank: map<nat, nat>)
    requires Links(objs, rank) && ResidentOk(objs, pages) && ShadowPinned(objs, pages) && objs'.Keys == objs.Keys
    requires forall o :: o in objs ==> objs'[o] == objs[o].(refcount := objs'[o].refcount)
    ensures SameLinks(objs, objs') && Links(objs', rank) && ResidentOk(objs', pages) && ShadowPinned(objs', pages)
  {
  }

  lemma HeldCounts(objs: Objs, objs': Objs, ext: map<nat, nat>, held: Option<nat>, held': Option<nat>)
    requires CountsOk(objs, ext, held) && objs'.Keys == objs.Keys && SameLinks(objs, objs')
    requires forall o :: o in objs ==> objs'[o] == objs[o].(refcount := objs[o].refcount + Held(held', o) - Held(held, o))
    ensures CountsOk(objs', ext, held')
  {
    hide Uppers;
    forall o ensures Uppers(objs', o) == Uppers(objs, o) {
      SameUppers(objs, objs', o);
    }
  }

  lemma RefsOf(objs: Objs, ext: map<nat, nat>, held: Option<nat>, o: nat)
    requires CountsOk(objs, ext, held) && o in objs
    ensures o in ext && objs[o].refcount == objs[o].nrespages + Parents(objs, ext, o) + Held(held, o)
  {
  }

  lemma PinnedMigrated(objs: Objs, objs': Objs, pages: Pages, pages': Pages, src: nat, dest: nat, p: nat)
    requires ShadowPinned(objs, pages) && SameLinks(objs, objs') && dest in objs && objs[dest].shadowed.Some?
    requires p in pages && pages[p].obj == src && src in objs && objs[src].shadowed.Some?
    requires forall q :: q in pages' ==> q in pages && pages'[q] == if q == p then pages[p].(obj := dest) else pages[q]
    ensures ShadowPinned(objs', pages')
  {
  }

  lemma BeforeTakeOut(objs: Objs, pages: Pages, res: map<(nat, nat), nat>, rank: map<nat, nat>, ext: map<nat, nat>, src: nat, dest: nat)
    requires Links(objs, rank) && ResidentOk(objs, pages) && Index(pages, res) && CountsOk(objs, ext, Some(dest))
    requires src in objs && src in ext && dest in objs && src != dest
    requires Uppers(objs, src) == {dest} && ext[src] == 0 && objs[src].shadowed.Some? && objs[src].respages == []
    ensures objs[src].refcount == 1 && objs[src].nrespages == 0
    ensures objs[objs[src].shadowed.value].refcount > objs[objs[src].shadowed.value].nrespages
    ensures forall m: nat :: (src, m) !in res
  {
    var z := objs[src].shadowed.value;
    assert src in Uppers(objs, z);
    forall id | id in res ensures id.0 != src {
      assert res[id] in pages && res[id] !in objs[src].respages;
    }
  }

  // Taking out src.
  lemma LinksAfter(objs: Objs, objs': Objs, rank: map<nat, nat>, src: nat, dest: nat)
    requires Links(objs, rank) && src in objs && dest in objs && src != dest && objs[dest].shadowed == Some(src)
    requires Uppers(objs, src) == {dest} && objs[src].shadowed.Some? && objs[src].respages == []
    requires objs'.Keys == objs.Keys - {src} && objs'[dest] == objs[dest].(shadowed := objs[src].shadowed)
    requires forall x :: x in objs' && x != dest ==> objs'[x] == objs[x]
    ensures Links(objs', rank) && Unlinked(objs, objs', src, dest)
  {
    hide Uppers;
    forall x | x in objs' && objs'[x].shadowed.Some?
      ensures objs'[x].shadowed.value in objs' && rank[objs'[x].shadowed.value] < rank[x]
    {
      OnlyUpper'(objs, src, dest, x);
    }
  }

  lemma AfterTakeOut(objs: Objs, objs': Objs, pages: Pages, rank: map<nat, nat>, ext: map<nat, nat>, src: nat, dest: nat)
    requires Links(objs, rank) && src in objs && dest in objs && src != dest && objs[dest].shadowed == Some(src)
    requires Uppers(objs, src) == {dest} && objs[src].shadowed.Some? && objs[src].respages == []
    requires objs'.Keys == objs.Keys - {src} && objs'[dest] == objs[dest].(shadowed := objs[src].shadowed)
    requires forall x :: x in objs' && x != dest ==> objs'[x] == objs[x]
    requires ResidentOk(objs, pages) && CountsOk(objs, ext, Some(dest)) && ShadowPinned(objs, pages) && Collapsible(objs, ext)
    ensures Links(objs', rank) && Unlinked(objs, objs', src, dest) && ResidentOk(objs', pages)
    ensures CountsOk(objs', ext, Some(dest)) && ShadowPinned(objs', pages) && Collapsible(objs', ext)
  {
    hide Uppers, Links;
    LinksAfter(objs, objs', rank, src, dest);
    PagesAfter(objs, objs', pages, rank, src, dest);
    forall x | x in objs' ensures |Uppers(objs', x)| == |Uppers(objs, x)| {
      UnlinkKeepsUppers(objs, objs', rank, src, dest, x);
    }
  }

  lemma PagesAfter(objs: Objs, objs': Objs, pages: Pages, rank: map<nat, nat>, src: nat, dest: nat)
    requires Links(objs, rank) && src in objs && dest in objs && src != dest && objs[dest].shadowed == Some(src)
    requires Uppers(objs, src) == {dest} && objs[src].shadowed.Some? && objs[src].respages == []
    requires objs'.Keys == objs.Keys - {src} && objs'[dest] == objs[dest].(shadowed := objs[src].shadowed)
    requires forall x :: x in objs' && x != dest ==> objs'[x] == objs[x]
    requires ResidentOk(objs, pages) && ShadowPinned(objs, pages)
    ensures ResidentOk(objs', pages) && ShadowPinned(objs', pages)
  {
    hide Uppers, Links;
    forall p | p in pages ensures pages[p].obj != src {
      assert p !in objs[src].respages;
    }
  }

  lemma OnlyUpper'(objs: Objs, src: nat, dest: nat, x: nat)
    requires Uppers(objs, src) == {dest} && x in objs
    ensures x != dest ==> objs[x].shadowed != Some(src)
  {
    if x != dest {
      OnlyUpper(objs, src, dest, x);
    }
  }
}
