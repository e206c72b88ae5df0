/** The buddy page allocator of `kernel/mm/page.c`: page groups, and allocation and release over all
    of them.  Addresses are page numbers (the low PAGE_SHIFT bits of every address are zero). */
module PageAllocator {
  import opened BuddyTree
  import opened BuddyLists
  import opened Wrappers

  const NSIZES := 8   // PAGE_NSIZES

  // ---------------------------------------------------------------------------------------------
  // The bookkeeping of a group

  const PAGE_BYTES := 4096
  const GROUP_BYTES := 112   // sizeof(struct pagegroup)

  // The bits of the map of an order: one for each block of the range, in whole bytes.
  function MapBits(range: nat, order: nat): nat {
    var count := Shr(range, order);
    if count == 0 then 0 else (count - 1) / 8 * 8 + 8
  }

  // The bytes of struct pagegroup and of the maps of orders 1 to n - 1.
  function Overhead(range: nat, n: nat): nat {
    if n <= 1 then GROUP_BYTES else Overhead(range, n - 1) + MapBits(range, n - 1) / 8
  }

  // The pages that are left over, rounded down.
  function UsablePages(range: nat): nat
    requires range > 0
  {
    OverheadBound(range, NSIZES);
    (range * PAGE_BYTES - Overhead(range, NSIZES)) / PAGE_BYTES
  }

  lemma {:induction false} ShrBound(a: nat, k: nat)
    ensures Shr(a, k) <= a
  {
    if k > 0 {
      ShrBound(a, k - 1);
    }
  }

  lemma {:induction false} OverheadBound(range: nat, n: nat)
    requires range > 0
    ensures GROUP_BYTES <= Overhead(range, n) && (n > 0 ==> Overhead(range, n) <= GROUP_BYTES + (n - 1) * range)
    decreases n
  {
    if n > 1 {
      OverheadBound(range, n - 1);
      ShrBound(range, n - 1);
      assert MapBits(range, n - 1) / 8 <= range;
      assert (n - 1) * range == (n - 2) * range + range;
    }
  }

  /** The usable pages end before the maps and the group, which end with the range; they are as many as fit, but
      fewer than the range has, and the maps have a bit for each of their blocks. */
  lemma BookkeepingFits(range: nat, order: nat)
    requires range > 0
    ensures UsablePages(range) < range
    ensures UsablePages(range) * PAGE_BYTES + Overhead(range, NSIZES) <= range * PAGE_BYTES
    ensures range * PAGE_BYTES < (UsablePages(range) + 1) * PAGE_BYTES + Overhead(range, NSIZES)
    ensures Shr(UsablePages(range), order) <= MapBits(range, order)
  {
    hide Shr;
    OverheadBound(range, NSIZES);
    ShrMonotone(UsablePages(range), range, order);
  }

  // All bits are clear, and there is one for each block of these pages.
  ghost predicate Clear(bits: Maps, npages: nat) {
    && |bits| == NSIZES
    && forall k :: 0 < k < NSIZES ==> |bits[k]| >= Shr(npages, k) && forall i :: 0 <= i < |bits[k]| ==> !bits[k][i]
  }

  // Takes the group and its maps off the end of the range; all bits are cleared.
  method CarveOut(range: nat) returns (usable: nat, bits: Maps)
    requires range > 0
    ensures usable == UsablePages(range) && Clear(bits, usable)
  {
    hide Shr, MapBits;
    OverheadBound(range, NSIZES);
    var end: int := range * PAGE_BYTES - GROUP_BYTES;
    bits := [[]];
    for order := 1 to NSIZES
      invariant end == range * PAGE_BYTES - Overhead(range, order)
      invariant |bits| == order
      invariant forall k :: 0 < k < order ==> bits[k] == seq(MapBits(range, k), _ => false)
    {
      end := end - MapBits(range, order) / 8;
      bits := bits + [seq(MapBits(range, order), _ => false)];
    }
    usable := end / PAGE_BYTES;
    forall k | 0 < k < NSIZES ensures |bits[k]| >= Shr(usable, k) && forall i :: 0 <= i < |bits[k]| ==> !bits[k][i] {
      BookkeepingFits(range, k);
    }
  }

  class PageGroup {
    const base: nat        // pg_baseaddr
    const npages: nat      // pages from there to pg_endaddr
    const tops: nat        // how many top-order blocks they hold
    var free: Lists
    var bits: Maps
    ghost var alloc: set<Node>   // the blocks handed out and not yet returned

    ghost predicate Valid()
      reads this
    {
      && |free| == |bits| == NSIZES && npages == Addr(TOP, tops)
      && GroupInv(free, bits, alloc, tops) && CoalescedBut(free, NOWHERE)
    }

    // _pagegroup_create, for a range of pages at whose end the group keeps itself and its bitmaps.  The
    // pair bits are right just when no pages are left over beyond the top-order blocks.
    constructor (start: nat, range: nat)
      requires range > 0
      ensures base == start && npages == UsablePages(range) && tops == Shr(npages, TOP) && alloc == {}
      ensures |free| == NSIZES
      ensures npages == Addr(TOP, tops) ==> Valid()
      ensures npages == Addr(TOP, tops) ==> FreePages(free) == npages
      ensures npages == Addr(TOP, tops) <==> MarkedFree(free, bits)
    {
      hide Shr, Addr, FreePages, TailBlock, TopList, UsablePages, MarkedFree, GroupInv, CoalescedBut;
      var usable, maps := CarveOut(range);
      base, npages, tops, alloc := start, usable, Shr(usable, TOP), {};
      free, bits := seq(NSIZES, _ => []), maps;
      new;
      var end := FillTail();
      FillTop(end);
      NewGroup(free, bits, npages, tops);
    }

    // Pages that do not fit into the largest blocks go to smaller ones, from the end on.
    method FillTail() returns (end: nat)
      requires tops == Shr(npages, TOP) && free == seq(NSIZES, _ => [])
      modifies this`free
      ensures |free| == NSIZES && end == Addr(TOP, tops) && free[TOP] == []
      ensures forall k :: 0 <= k < TOP ==> free[k] == TailBlock(npages, k)
    {
      hide Shr, Addr;
      AddrShrZero(npages);
      end := npages;
      for order := 0 to NSIZES - 1
        invariant |free| == NSIZES && end == Addr(order, Shr(npages, order))
        invariant forall k :: 0 <= k < order ==> free[k] == TailBlock(npages, k)
        invariant forall k :: order <= k < NSIZES ==> free[k] == []
      {
        TailAddress(npages, order);
        if Shr(npages, order) % 2 == 1 {
          end := end - Size(order);
          free := free[order := [end] + free[order]];
        }
      }
    }

    // The pages up to end go to the list of the largest blocks.
    method FillTop(end: nat)
      requires |free| == NSIZES && end == Addr(TOP, tops) && free[TOP] == []
      modifies this`free
      ensures |free| == NSIZES && free[TOP] == TopList(tops) && forall k :: 0 <= k < TOP ==> free[k] == old(free[k])
    {
      hide Shr, Addr;
      var current := 0;
      ghost var t := 0;
      AddrZero(TOP);
      while current < end
        invariant |free| == NSIZES && forall k :: 0 <= k < TOP ==> free[k] == old(free[k])
        invariant t <= tops && current == Addr(TOP, t)
        invariant free[TOP] == TopList(t)
        decreases end - current
      {
        TopBelow(t, tops);
        AddrNext(TOP, t);
        free := free[TOP := [current] + free[TOP]];
        current := current + Size(TOP);
        t := t + 1;
      }
      TopCount(t, tops);
    }

    // Flips the pair bit one order up that covers addr, if there is such an order.
    method FlipBit(order: nat, addr: nat, ghost n: Node)
      requires order < NSIZES && n.order == order && addr == Addr(order, n.index)
      requires order < TOP ==> HasBit(bits, n.Parent())
      modifies this`bits
      ensures bits == FlipFor(old(bits), n)
    {
      hide Shr;
      if NSIZES - 1 > order {
        ShrIndex(n);
        var index := Shr(addr, order + 1);
        bits := bits[order + 1 := bits[order + 1][index := !bits[order + 1][index]]];
      }
    }

    // Splits the block at the head of the list of this order.
    method Split(order: nat, ghost n: Node, ghost e: Node)
      requires 0 < order < NSIZES && n.order == order
      requires GroupInv(free, bits, alloc, tops)
      requires free[order] != [] && free[order][0] == Addr(order, n.index)
      requires CoalescedBut(free, e) && (e == NOWHERE || e == n.Parent())
      modifies this`free, this`bits
      ensures GroupInv(free, bits, alloc, tops) && CoalescedBut(free, n)
      ensures free[order - 1] != [] && free[order - 1][0] == Addr(order - 1, n.Right().index)
      ensures forall k :: 0 <= k < NSIZES && k != order && k != order - 1 ==> free[k] == old(free[k])
      ensures forall m :: IsFree(free, m) <==> (old(IsFree(free, m)) && m != n) || m == n.Left() || m == n.Right()
      ensures FreePages(free) == old(FreePages(free))
    {
      hide WellFormed, Partition, PairBits, FreePages, Shr, IsFree, CoalescedBut, FlipFor, Addr;
      ListCount(free, bits, alloc, tops);
      HeadIsFree(free, n);
      ghost var free0 := free;
      SplitStep(free, bits, alloc, tops, n);
      var target := free[order][0];
      ShrIndex(n);
      RemoveHead(free[order], target);
      free := free[order := free[order][1..]];
      ghost var free1 := free;
      assert free1 == Unlink(free0, n);
      FlipBit(order, target, n);
      FlipKeepsOwnOrder(old(bits), n);
      assert !bits[order][Shr(target, order)];
      HalfAddresses(n);
      var buddy := target + Size(order - 1);
      free := free[order - 1 := [target] + free[order - 1]];
      assert free == Push(free1, n.Left());
      free := free[order - 1 := [buddy] + free[order - 1]];
      assert free == SplitLists(free0, n);
      SplitCoalesced(free0, free, n, e);
    }

    ghost function Head(order: nat): (n: Node)
      requires Valid() && order < NSIZES && free[order] != []
      reads this
      ensures n.order == order && free[order][0] == Addr(order, n.index)
    {
      HeadNode(free, tops, order)
    }

    // The inner loop of _page_split.
    method SplitTo(norder0: nat, order: nat) returns (ghost n: Node, ghost e: Node)
      requires Valid() && order < norder0 < NSIZES && free[norder0] != []
      modifies this`free, this`bits
      ensures GroupInv(free, bits, alloc, tops) && CoalescedBut(free, e) && e == n.Parent()
      ensures n.order == order && free[order] != [] && free[order][0] == Addr(order, n.index)
      ensures FreePages(free) == old(FreePages(free))
      ensures forall k :: norder0 < k < NSIZES ==> free[k] == old(free[k])
    {
      hide FreePages, Addr, Shr, Partition, PairBits;
      var norder := norder0;
      n, e := HeadNode(free, tops, norder0), NOWHERE;
      while norder > order
        invariant order <= norder <= norder0
        invariant GroupInv(free, bits, alloc, tops) && CoalescedBut(free, e)
        invariant n.order == norder && free[norder] != [] && free[norder][0] == Addr(norder, n.index)
        invariant if norder == norder0 then e == NOWHERE else e == n.Parent()
        invariant FreePages(free) == old(FreePages(free))
        invariant forall k :: norder0 < k < NSIZES ==> free[k] == old(free[k])
      {
        Split(norder, n, e);
        n, e := n.Right(), n;
        norder := norder - 1;
      }
    }

    // Takes the block at the head of the list of this order (the end of _page_alloc_order).
    method TakeHead(order: nat, ghost n: Node, ghost e: Node) returns (addr: nat)
      requires order < NSIZES && n.order == order
      requires npages == Addr(TOP, tops)
      requires GroupInv(free, bits, alloc, tops)
      requires free[order] != [] && free[order][0] == Addr(order, n.index)
      requires CoalescedBut(free, e) && (e == NOWHERE || e == n.Parent())
      modifies this
      ensures Valid() && addr == Addr(order, n.index)
      ensures alloc == old(alloc) + {n} && n !in old(alloc)
      ensures FreePages(free) + Size(order) == old(FreePages(free))
      ensures forall k :: 0 <= k < NSIZES && k != order ==> free[k] == old(free[k])
    {
      hide WellFormed, Partition, PairBits, FreePages, Shr;
      ListCount(free, bits, alloc, tops);
      assert IsFree(free, n);
      ghost var free0 := free;
      AllocStep(free, bits, alloc, tops, n);
      UnlinkIs(free, tops, n);
      FreeNodesAreFree(free, tops);
      addr := free[order][0];
      ShrIndex(n);
      RemoveHead(free[order], addr);
      free := free[order := free[order][1..]];
      FlipBit(order, addr, n);
      alloc := alloc + {n};
      assert free == Unlink(free0, n);
      TakeCoalesced(free0, free, n, e);
    }

    // Merges the free block at addr with its buddy for as long as the pair bit allows.
    method Join(order0: nat, addr0: nat, ghost n0: Node)
      requires order0 < NSIZES && n0.order == order0 && addr0 == Addr(order0, n0.index)
      requires npages == Addr(TOP, tops)
      requires GroupInv(free, bits, alloc, tops) && IsFree(free, n0)
      requires CoalescedBut(free, n0.Parent())
      modifies this`free, this`bits
      ensures Valid()
      ensures FreePages(free) == old(FreePages(free))
    {
      hide WellFormed, Partition, PairBits, FreePages, Shr, IsFree, FlipFor, CoalescedBut;
      var order, addr := order0, addr0;
      ghost var n := n0;
      while true
        invariant order < NSIZES && n.order == order && addr == Addr(order, n.index)
        invariant GroupInv(free, bits, alloc, tops) && IsFree(free, n) && CoalescedBut(free, n.Parent())
        invariant FreePages(free) == old(FreePages(free))
        decreases NSIZES - order
      {
        ListCount(free, bits, alloc, tops);
        if order == NSIZES - 1 {
          TopCoalesced(free, n);
          break;
        }
        ClearBitMeansBuddyFree(free, bits, alloc, tops, n);
        ShrIndex(n);
        var index := Shr(addr, order + 1);
        if bits[order + 1][index] {
          DoneCoalesced(free, n);
          break;
        }
        JoinOnce(order, addr, n);
        BuddyAddress(n);
        addr := if Shr(addr, order) % 2 == 1 then addr - Size(order) else addr;
        order := order + 1;
        n := n.Parent();
      }
    }

    // The body of the loop of __page_join.
    method JoinOnce(order: nat, addr: nat, ghost n: Node)
      requires order < NSIZES - 1 && n.order == order && addr == Addr(order, n.index)
      requires GroupInv(free, bits, alloc, tops) && IsFree(free, n) && CoalescedBut(free, n.Parent())
      requires IsFree(free, n.Buddy())
      modifies this`free, this`bits
      ensures GroupInv(free, bits, alloc, tops) && IsFree(free, n.Parent()) && CoalescedBut(free, n.Parent().Parent())
      ensures FreePages(free) == old(FreePages(free))
    {
      hide WellFormed, Partition, PairBits, FreePages, Shr, CoalescedBut, FlipFor, GroupInv, HasBit, Addr;
      ghost var free0 := free;
      ListCount(free, bits, alloc, tops);
      JoinStep(free, bits, alloc, tops, n);
      BuddyAddress(n);
      ShrIndex(n);
      ShrIndex(n.Parent());
      var buddy := if Shr(addr, order) % 2 == 1 then addr - Size(order) else addr + Size(order);
      free := free[order := Remove(free[order], addr)];
      free := free[order := Remove(free[order], buddy)];
      var joined := if addr < buddy then addr else buddy;
      free := free[order + 1 := [joined] + free[order + 1]];
      FlipBit(order + 1, joined, n.Parent());
      assert free == JoinLists(free0, n, n.Buddy());
      JoinCoalesced(free0, free, n);
    }

    // _page_free_order, once the group is known: puts the block on its list and merges.
    method Release(addr: nat, order: nat, ghost n: Node)
      requires Valid() && n in alloc && n.order == order && addr == Addr(order, n.index)
      modifies this
      ensures Valid() && alloc == old(alloc) - {n}
      ensures FreePages(free) == old(FreePages(free)) + Size(order)
    {
      hide WellFormed, Partition, PairBits, FreePages, Shr, IsFree, CoalescedBut;
      ghost var free0 := free;
      ListCount(free, bits, alloc, tops);
      ReleaseStep(free, bits, alloc, tops, n);
      ReleaseCoalesced(free, n);
      ShrIndex(n);
      free := free[order := [addr] + free[order]];
      alloc := alloc - {n};
      assert free == Push(free0, n);
      if NSIZES - 1 > order {
        FlipBit(order, addr, n);
        Join(order, addr, n);
      } else {
        TopCoalesced(free, n);
      }
    }
  }

  // ---------------------------------------------------------------------------------------------
  // All groups

  ghost function Sum(s: seq<nat>): nat {
    if s == [] then 0 else Sum(s[..|s| - 1]) + s[|s| - 1]
  }

  lemma SumAppend(s: seq<nat>, x: nat)
    ensures Sum(s + [x]) == Sum(s) + x
  {
    assert (s + [x])[..|s|] == s;
  }

  lemma {:induction false} SumUpdate(s: seq<nat>, i: nat, v: nat)
    requires i < |s|
    ensures Sum(s[i := v]) == Sum(s) - s[i] + v
  {
    var n := |s| - 1;
    if i == n {
      assert s[i := v][..n] == s[..n];
    } else {
      assert s[i := v][..n] == s[..n][i := v];
      SumUpdate(s[..n], i, v);
    }
  }

  // A block that is given back, by its group.
  datatype Given = Given(g: nat, n: Node)

  function Flat(rounds: seq<seq<Given>>): seq<Given> {
    if rounds == [] then [] else Flat(rounds[..|rounds| - 1]) + rounds[|rounds| - 1]
  }

  // The blocks of a group among these, and the pages of all.
  ghost function NodesOf(given: seq<Given>, g: nat): set<Node> {
    set x | x in given && x.g == g :: x.n
  }

  ghost function PagesOf(given: seq<Given>): nat {
    if given == [] then 0 else PagesOf(given[..|given| - 1]) + Size(given[|given| - 1].n.order)
  }

  lemma NodesSnoc(given: seq<Given>)
    requires given != []
    ensures var rest, last := given[..|given| - 1], given[|given| - 1];
      forall i :: NodesOf(given, i) == if i == last.g then NodesOf(rest, i) + {last.n} else NodesOf(rest, i)
    ensures (forall j, k :: 0 <= j < k < |given| ==> given[j] != given[k]) ==>
      given[|given| - 1].n !in NodesOf(given[..|given| - 1], given[|given| - 1].g)
  {
    var rest, last := given[..|given| - 1], given[|given| - 1];
    assert given == rest + [last];
    forall i ensures NodesOf(given, i) == if i == last.g then NodesOf(rest, i) + {last.n} else NodesOf(rest, i) {
      assert forall x :: x in given <==> x in rest || x == last;
    }
  }

  lemma {:induction false} NodesJoin(a: seq<Given>, b: seq<Given>)
    ensures PagesOf(a + b) == PagesOf(a) + PagesOf(b)
    ensures forall i :: NodesOf(a + b, i) == NodesOf(a, i) + NodesOf(b, i)
    decreases |b|
  {
    if b == [] {
      assert a + b == a;
    } else {
      var c := b[..|b| - 1];
      NodesJoin(a, c);
      assert (a + b)[..|a + b| - 1] == a + c;
    }
  }

  lemma FlatNothing(rounds: seq<seq<Given>>)
    ensures Flat(rounds[..0]) == [] && PagesOf([]) == 0 && forall i :: NodesOf([], i) == {}
  {
  }

  lemma {:induction false} FlatPrefix(rounds: seq<seq<Given>>, k: nat)
    requires k <= |rounds|
    ensures Flat(rounds[..k]) <= Flat(rounds)
    decreases |rounds|
  {
    if k == |rounds| {
      assert rounds[..k] == rounds;
    } else {
      var r := rounds[..|rounds| - 1];
      assert r[..k] == rounds[..k];
      FlatPrefix(r, k);
    }
  }

  // One more round: its blocks are not among those of the rounds before.
  lemma FlatNext(rounds: seq<seq<Given>>, k: nat)
    requires k < |rounds|
    ensures var before, now := Flat(rounds[..k]), Flat(rounds[..k + 1]);
      && now == before + rounds[k] && PagesOf(now) == PagesOf(before) + PagesOf(rounds[k])
      && (forall i :: NodesOf(now, i) == NodesOf(before, i) + NodesOf(rounds[k], i))
    ensures (forall i, j :: 0 <= i < j < |Flat(rounds)| ==> Flat(rounds)[i] != Flat(rounds)[j]) ==>
      && (forall i, j :: 0 <= i < j < |rounds[k]| ==> rounds[k][i] != rounds[k][j])
      && (forall x :: x in rounds[k] ==> x.n !in NodesOf(Flat(rounds[..k]), x.g))
    ensures forall x :: x in rounds[k] ==> x in Flat(rounds)
  {
    hide NodesOf, PagesOf;
    assert rounds[..k + 1][..k] == rounds[..k];
    var before := Flat(rounds[..k]);
    NodesJoin(before, rounds[k]);
    FlatPrefix(rounds, k + 1);
    hide Flat;
    PartOf(Flat(rounds), before, rounds[k]);
  }

  lemma PartOf(all: seq<Given>, before: seq<Given>, part: seq<Given>)
    requires before + part <= all
    ensures (forall i, j :: 0 <= i < j < |all| ==> all[i] != all[j]) ==>
      && (forall i, j :: 0 <= i < j < |part| ==> part[i] != part[j])
      && (forall x :: x in part ==> x.n !in NodesOf(before, x.g))
    ensures forall x :: x in part ==> x in all
  {
    assert forall i :: 0 <= i < |part| ==> all[|before| + i] == part[i];
    assert forall i :: 0 <= i < |before| ==> all[i] == before[i];
  }

  // A group in which the block n at the head of its list can be taken.
  ghost predicate SplitReady(p: PageGroup, order: nat, n: Node, e: Node)
    reads p
  {
    && |p.free| == |p.bits| == NSIZES && p.npages == Addr(TOP, p.tops) && order < NSIZES
    && GroupInv(p.free, p.bits, p.alloc, p.tops) && CoalescedBut(p.free, e) && (e == NOWHERE || e == n.Parent())
    && n.order == order && p.free[order] != [] && p.free[order][0] == Addr(order, n.index)
  }

  // Some blocks have been given back, and then the block n of the group g, which nobody had, was handed out.
  ghost predicate TookOne(groups: seq<PageGroup>, allocs: seq<set<Node>>, given: seq<Given>, g: nat, n: Node)
    requires g < |groups| == |allocs|
    reads groups
  {
    && n !in allocs[g] - NodesOf(given, g)
    && forall i :: 0 <= i < |groups| ==>
         groups[i].alloc == allocs[i] - NodesOf(given, i) + if i == g then {n} else {}
  }

  // The blocks that are given back are handed out, and each is given back once.
  ghost predicate HandedOut(given: seq<Given>, allocs: seq<set<Node>>) {
    && (forall x :: x in given ==> x.g < |allocs| && x.n in allocs[x.g])
    && (forall j, k :: 0 <= j < k < |given| ==> given[j] != given[k])
  }

  // What is left of the blocks handed out when some were given back.
  ghost predicate LeftOf(allocs: seq<set<Node>>, allocs0: seq<set<Node>>, given: seq<Given>) {
    |allocs| == |allocs0| && forall i :: 0 <= i < |allocs| ==> allocs[i] == allocs0[i] - NodesOf(given, i)
  }

  lemma NothingTaken(rounds: seq<seq<Given>>, allocs: seq<set<Node>>)
    ensures LeftOf(allocs, allocs, Flat(rounds[..0]))
  {
    FlatNothing(rounds);
  }

  // Some group has a free block of this order.
  ghost predicate Has(lists: seq<Lists>, order: nat) {
    exists i :: 0 <= i < |lists| && order < |lists[i]| && lists[i][order] != []
  }

  // No group has a free block of this order or above.
  ghost predicate NoneFrom(lists: seq<Lists>, order: nat) {
    forall i, k :: 0 <= i < |lists| && order <= k < |lists[i]| ==> lists[i][k] == []
  }

  // Where a smaller block is large enough, no larger one is touched.
  ghost predicate LargerKept(before: seq<Lists>, after: seq<Lists>, order: nat) {
    && |after| == |before| && (forall i :: 0 <= i < |before| ==> |before[i]| == |after[i]| == NSIZES)
    && forall i, j, k :: 0 <= i < |before| && order <= j < k < NSIZES && Has(before, j) ==> after[i][k] == before[i][k]
  }

  // The list of the order itself may change as well.
  lemma LargerKeptTake(before: seq<Lists>, mid: seq<Lists>, after: seq<Lists>, g: nat, order: nat)
    requires before == mid || (LargerKept(before, mid, order + 1) && !Has(before, order))
    requires g < |mid| == |after| && forall i :: 0 <= i < |mid| ==> |mid[i]| == |after[i]| == NSIZES
    requires forall i :: 0 <= i < |mid| && i != g ==> after[i] == mid[i]
    requires forall k :: 0 <= k < NSIZES && k != order ==> after[g][k] == mid[g][k]
    ensures LargerKept(before, after, order)
  {
    hide Has;
  }

  // Nothing above the block that was split has changed.
  lemma LargerKeptSplit(before: seq<Lists>, after: seq<Lists>, g: nat, order: nat, norder: nat)
    requires g < |before| == |after| && forall i :: 0 <= i < |before| ==> |before[i]| == |after[i]| == NSIZES
    requires order < norder < NSIZES && forall k :: order < k < norder ==> !Has(before, k)
    requires forall i :: 0 <= i < |before| && i != g ==> after[i] == before[i]
    requires forall k :: norder < k < NSIZES ==> after[g][k] == before[g][k]
    ensures LargerKept(before, after, order + 1)
  {
    hide Has;
    assert forall j :: order + 1 <= j < NSIZES && Has(before, j) ==> j >= norder;
  }

  lemma NoneHas(lists: seq<Lists>, order: nat)
    requires (forall i :: 0 <= i < |lists| ==> |lists[i]| == NSIZES) && forall k :: order <= k < NSIZES ==> !Has(lists, k)
    ensures NoneFrom(lists, order)
  {
    forall i, k | 0 <= i < |lists| && order <= k < |lists[i]| ensures lists[i][k] == [] {
      assert !Has(lists, k);
    }
  }

  datatype AllocResult = Block(addr: nat) | OutOfMemory | Panic

  class PageSystem {
    var groups: seq<PageGroup>   // pagegroup_list
    var freecount: int           // page_freecount

    ghost predicate Apart()
      reads this
    {
      && (forall i, j :: 0 <= i < j < |groups| ==> groups[i] != groups[j])
      && (forall i, j :: 0 <= i < |groups| && 0 <= j < |groups| && i != j ==>
            groups[i].base + groups[i].npages <= groups[j].base || groups[j].base + groups[j].npages <= groups[i].base)
    }

    ghost function Counts(): (s: seq<nat>)
      reads this, groups
      ensures |s| == |groups| && forall i :: 0 <= i < |s| ==> s[i] == FreePages(groups[i].free)
    {
      seq(|groups|, i requires 0 <= i < |groups| reads this, groups => FreePages(groups[i].free))
    }

    ghost predicate Valid()
      reads this, groups
    {
      && Apart()
      && (forall i :: 0 <= i < |groups| ==> groups[i].Valid())
      && freecount == Sum(Counts())
    }

    constructor ()
      ensures Valid() && groups == [] && freecount == 0
    {
      groups, freecount := [], 0;
    }

    // page_add_range, for a range whose usable pages are whole top-order blocks.
    method AddRange(start: nat, range: nat, ghost usable: nat)
      requires Valid() && range > 0 && usable == UsablePages(range) == Addr(TOP, Shr(usable, TOP))
      requires forall i :: 0 <= i < |groups| ==>
        groups[i].base + groups[i].npages <= start || start + usable <= groups[i].base
      modifies this
      ensures Valid() && freecount == old(freecount) + usable
      ensures usable == 0 ==> groups == old(groups)
      ensures usable > 0 ==> |groups| == old(|groups|) + 1 && groups[..old(|groups|)] == old(groups)
      ensures usable > 0 ==> fresh(groups[old(|groups|)]) && groups[old(|groups|)].alloc == {}
      ensures usable > 0 ==> groups[old(|groups|)].base == start
    {
      hide FreePages, GroupInv, CoalescedBut, MarkedFree, Addr, Shr, UsablePages, Sum;
      var group := new PageGroup(start, range);
      ghost var counts := Counts();
      if group.npages > 0 {
        groups := groups + [group];
        freecount := freecount + group.npages;
        SumAppend(counts, FreePages(group.free));
        assert Counts() == counts + [FreePages(group.free)];
      }
    }

    // All groups but g are as they were.
    twostate predicate OnlyGroup(g: nat)
      reads this, groups
    {
      && groups == old(groups)
      && forall i :: 0 <= i < |groups| && i != g ==> unchanged(groups[i])
    }

    twostate lemma CountsAfter(g: nat)
      requires g < |groups| && OnlyGroup(g)
      ensures Sum(Counts()) == old(Sum(Counts())) - old(FreePages(groups[g].free)) + FreePages(groups[g].free)
    {
      hide FreePages;
      SumUpdate(old(Counts()), g, FreePages(groups[g].free));
      assert Counts() == old(Counts())[g := FreePages(groups[g].free)];
    }

    // Valid, but for the group g.
    ghost predicate ValidBut(g: nat)
      reads this, groups
    {
      Apart() && (forall i :: 0 <= i < |groups| && i != g ==> groups[i].Valid()) && freecount == Sum(Counts())
    }

    // When one group has changed, and the count with it, the whole is valid again.
    twostate lemma ValidAfter(g: nat)
      requires old(ValidBut(g)) && g < |groups| && OnlyGroup(g) && groups[g].Valid()
      requires freecount == old(freecount) - old(FreePages(groups[g].free)) + FreePages(groups[g].free)
      ensures Valid()
    {
      hide FreePages, GroupInv, CoalescedBut, Addr;
      CountsAfter(g);
      forall i | 0 <= i < |groups| ensures groups[i].Valid() {
        if i != g {
          assert old(groups[i].Valid());
        }
      }
    }

    // The first group with a free block of this order, if any.
    method FindGroup(order: nat) returns (g: nat)
      requires Valid() && order < NSIZES
      ensures g <= |groups|
      ensures !Has(FreeLists()[..g], order)
      ensures g < |groups| ==> groups[g].free[order] != []
      ensures g == |groups| ==> !Has(FreeLists(), order)
    {
      hide FreeLists;
      g := 0;
      while g < |groups|
        invariant g <= |groups|
        invariant forall i :: 0 <= i < g ==> groups[i].free[order] == []
      {
        if |groups[g].free[order]| != 0 {
          return;
        }
        g := g + 1;
      }
    }

    // The loops of _page_split: the first group with a free block of the least larger order that has one.
    method FindLarger(order: nat) returns (g: nat, norder: nat)
      requires Valid() && order < NSIZES
      ensures g <= |groups|
      ensures g < |groups| ==> order < norder < NSIZES && groups[g].free[norder] != []
      ensures g < |groups| ==> forall k :: order < k < norder ==> !Has(FreeLists(), k)
      ensures g == |groups| ==> NoneFrom(FreeLists(), order + 1)
    {
      hide *;
      ghost var lists := FreeLists();
      norder := order + 1;
      while norder < NSIZES
        invariant order < norder <= NSIZES && FreeLists() == lists
        invariant forall k :: order < k < norder ==> !Has(lists, k)
      {
        g := FindGroup(norder);
        if g < |groups| {
          return;
        }
        norder := norder + 1;
      }
      g := |groups|;
      NoneHere(order + 1);
    }

    lemma NoneHere(order: nat)
      requires Valid() && forall k :: order <= k < NSIZES ==> !Has(FreeLists(), k)
      ensures NoneFrom(FreeLists(), order)
    {
      hide Has, NoneFrom;
      ListsThere();
      NoneHas(FreeLists(), order);
    }

    // One search of _page_split: finds the first larger free block and halves it down to this order.
    method SearchLarger(order: nat) returns (g: nat, ghost n: Node, ghost e: Node)
      requires Valid() && order < NSIZES
      modifies groups
      ensures g <= |groups| && OnlyGroup(g) && Allocs() == old(Allocs())
      ensures g == |groups| ==> NoneFrom(FreeLists(), order + 1) && FreeLists() == old(FreeLists())
      ensures g < |groups| ==> ValidBut(g) && SplitReady(groups[g], order, n, e)
      ensures g < |groups| ==> LargerKept(old(FreeLists()), FreeLists(), order + 1)
    {
      hide Valid, ValidBut, SplitReady, Has, NoneFrom, FreeLists, Allocs;
      n, e := NOWHERE, NOWHERE;
      ListsThere();
      ghost var lists := FreeLists();
      var norder;
      g, norder := FindLarger(order);
      assert FreeLists() == lists;
      if g < |groups| {
        n, e := SplitIn(g, norder, order);
        LargerKeptSplit(lists, FreeLists(), g, order, norder);
      }
    }

    // Splits within one group; the others stay as they are.
    method SplitIn(g: nat, norder: nat, order: nat) returns (ghost n: Node, ghost e: Node)
      requires Valid() && g < |groups| && order < norder < NSIZES && groups[g].free[norder] != []
      modifies groups
      ensures OnlyGroup(g) && ValidBut(g) && SplitReady(groups[g], order, n, e) && groups[g].alloc == old(groups[g].alloc)
      ensures |groups[g].free| == |old(groups[g].free)| == NSIZES
      ensures forall k :: norder < k < NSIZES ==> groups[g].free[k] == old(groups[g].free[k])
    {
      hide FreePages, Addr, Shr, CoalescedBut, IsFree, WellFormed, Partition, GroupInv, Sum;
      n, e := groups[g].SplitTo(norder, order);
      ListCount(groups[g].free, groups[g].bits, groups[g].alloc, groups[g].tops);
      CountsAfter(g);
    }

    ghost predicate Reclaimable(given: seq<Given>)
      reads this, groups
    {
      HandedOut(given, Allocs())
    }

    // slab_allocators_reclaim, as far as pages are concerned: it frees these blocks.
    method Reclaim(given: seq<Given>)
      requires Valid() && Reclaimable(given)
      modifies this`freecount, groups
      ensures Valid() && groups == old(groups) && freecount == old(freecount) + PagesOf(given)
      ensures forall i :: 0 <= i < |groups| ==> groups[i].alloc == old(groups[i].alloc) - NodesOf(given, i)
      ensures given == [] ==> OnlyGroup(|groups|)
      decreases |given|
    {
      hide Valid;
      if given != [] {
        var last := given[|given| - 1];
        NodesSnoc(given);
        Reclaim(given[..|given| - 1]);
        OrderBound(last.g, last.n);
        FreeOrder(groups[last.g].base + Addr(last.n.order, last.n.index), last.n.order, last.g, last.n);
      }
    }

    // One more round of reclaiming.
    method ReclaimNext(rounds: seq<seq<Given>>, used: nat, ghost allocs0: seq<set<Node>>)
      requires Valid() && used < |rounds| && HandedOut(Flat(rounds), allocs0) && LeftOf(Allocs(), allocs0, Flat(rounds[..used]))
      modifies this`freecount, groups
      ensures Valid() && groups == old(groups) && LeftOf(Allocs(), allocs0, Flat(rounds[..used + 1]))
      ensures freecount == old(freecount) - PagesOf(Flat(rounds[..used])) + PagesOf(Flat(rounds[..used + 1]))
      ensures rounds[used] == [] ==> FreeLists() == old(FreeLists())
    {
      hide Valid, Flat, PagesOf, NodesOf;
      FlatNext(rounds, used);
      Reclaim(rounds[used]);
    }

    lemma ListsThere()
      requires Valid()
      ensures forall i :: 0 <= i < |groups| ==> |groups[i].free| == NSIZES
    {
      assert forall i :: 0 <= i < |groups| ==> groups[i].Valid();
    }

    lemma OrderBound(g: nat, n: Node)
      requires Valid() && g < |groups| && n in groups[g].alloc
      ensures n.order < NSIZES
    {
      assert groups[g].Valid();
      BlockInTree(groups[g].free, groups[g].bits, groups[g].alloc, groups[g].tops, n);
    }

    // _page_split: searches for a larger block, and again each time after memory was reclaimed. rounds are the
    // blocks that reclaiming gives back each time, and the first used of them have been given back.
    method SplitDown(order: nat, rounds: seq<seq<Given>>) returns (g: nat, ghost n: Node, ghost e: Node, used: nat)
      requires Valid() && order < NSIZES && rounds != [] && Reclaimable(Flat(rounds))
      modifies this`freecount, groups
      ensures g <= |groups| && groups == old(groups) && used <= |rounds| && (g == |groups| <==> used == |rounds|)
      ensures used == 0 ==> OnlyGroup(g)
      ensures freecount == old(freecount) + PagesOf(Flat(rounds[..used]))
      ensures LeftOf(Allocs(), old(Allocs()), Flat(rounds[..used]))
      ensures g < |groups| ==> ValidBut(g) && SplitReady(groups[g], order, n, e)
      ensures g < |groups| && used == 0 ==> LargerKept(old(FreeLists()), FreeLists(), order + 1)
      ensures g == |groups| ==> Valid()
      ensures used > 0 ==> NoneFrom(old(FreeLists()), order + 1)
      ensures g == |groups| && rounds[|rounds| - 1] == [] ==> NoneFrom(FreeLists(), order + 1)
    {
      hide Valid, ValidBut, SplitReady, Flat, PagesOf, NodesOf, LargerKept, NoneFrom, LeftOf, FreeLists, Allocs;
      used := 0;
      FlatNothing(rounds);
      NothingTaken(rounds, Allocs());
      g, n, e := SearchLarger(order);
      if g == |groups| {
        assert Reclaimable(Flat(rounds));
        g, n, e, used := Retry(order, rounds);
      }
    }

    // The rounds after a search in vain.
    method Retry(order: nat, rounds: seq<seq<Given>>) returns (g: nat, ghost n: Node, ghost e: Node, used: nat)
      requires Valid() && order < NSIZES && rounds != [] && Reclaimable(Flat(rounds)) && NoneFrom(FreeLists(), order + 1)
      modifies this`freecount, groups
      ensures g <= |groups| && groups == old(groups) && 0 < used <= |rounds| && (g == |groups| <==> used == |rounds|)
      ensures freecount == old(freecount) + PagesOf(Flat(rounds[..used])) && LeftOf(Allocs(), old(Allocs()), Flat(rounds[..used]))
      ensures g < |groups| ==> ValidBut(g) && SplitReady(groups[g], order, n, e)
      ensures g == |groups| ==> Valid() && (rounds[|rounds| - 1] == [] ==> NoneFrom(FreeLists(), order + 1))
    {
      hide Valid, ValidBut, SplitReady, Flat, PagesOf, NodesOf, LargerKept, NoneFrom, LeftOf, HandedOut, FreeLists, Allocs;
      n, e, used := NOWHERE, NOWHERE, 0;
      FlatNothing(rounds);
      ghost var allocs0 := Allocs();
      NothingTaken(rounds, allocs0);
      while true
        invariant Valid() && groups == old(groups) && used < |rounds|
        invariant freecount == old(freecount) + PagesOf(Flat(rounds[..used])) && LeftOf(Allocs(), allocs0, Flat(rounds[..used]))
        invariant NoneFrom(FreeLists(), order + 1)
        decreases |rounds| - used
      {
        ReclaimNext(rounds, used, allocs0);
        used := used + 1;
        if used == |rounds| {
          g := |groups|;
          return;
        }
        g, n, e := SearchLarger(order);
        if g < |groups| {
          return;
        }
      }
    }

    /** _page_alloc_order: hands out one block of the order that nobody has, perhaps after memory was reclaimed.
        Where a smaller block is large enough no larger one is split, and memory is reclaimed only when no group
        has a free block of that order or above. It fails only when reclaiming, time after time, brought no larger
        one; after a last time in vain there is none either. */
    method AllocOrder(order: nat, rounds: seq<seq<Given>>) returns (addr: Option<nat>, ghost g: nat, ghost n: Node, used: nat)
      requires Valid() && order < NSIZES && rounds != [] && Reclaimable(Flat(rounds))
      modifies this`freecount, groups
      ensures Valid() && groups == old(groups) && used <= |rounds|
      ensures addr == None <==> used == |rounds|
      ensures addr == None ==> freecount == old(freecount) + PagesOf(Flat(rounds))
      ensures addr == None ==> forall i :: 0 <= i < |groups| ==> groups[i].alloc == old(groups[i].alloc) - NodesOf(Flat(rounds), i)
      ensures used > 0 ==> NoneFrom(old(FreeLists()), order)
      ensures addr == None && rounds[|rounds| - 1] == [] ==> NoneFrom(FreeLists(), order + 1)
      ensures addr.Some? ==>
        && g < |groups| && n.order == order && addr.value == groups[g].base + Addr(order, n.index)
        && TookOne(groups, old(Allocs()), Flat(rounds[..used]), g, n)
        && freecount == old(freecount) + PagesOf(Flat(rounds[..used])) - Size(order)
      ensures addr.Some? && used == 0 ==> OnlyGroup(g) && LargerKept(old(FreeLists()), FreeLists(), order)
    {
      hide FreePages, Addr, Shr, GroupInv, CoalescedBut, IsFree, Flat, PagesOf, NodesOf, Sum, Valid, ValidBut, SplitReady, Reclaimable,
        LargerKept, Has, FreeLists, Allocs, NoneFrom;
      var group;
      ghost var e;
      group, n, e, used := FindBlock(order, rounds);
      g := group;
      if group == |groups| {
        assert rounds[..used] == rounds;
        return None, g, n, used;
      }
      ghost var lists := FreeLists();
      var a := TakeReady(group, order, n, e);
      if used == 0 {
        LargerKeptTake(old(FreeLists()), lists, FreeLists(), g, order);
      }
      addr := Some(groups[group].base + a);
    }

    // The search of _page_alloc_order: a group with a free block of the order, or one that was split.
    method FindBlock(order: nat, rounds: seq<seq<Given>>) returns (g: nat, ghost n: Node, ghost e: Node, used: nat)
      requires Valid() && order < NSIZES && rounds != [] && Reclaimable(Flat(rounds))
      modifies this`freecount, groups
      ensures g <= |groups| && groups == old(groups) && used <= |rounds| && (g == |groups| <==> used == |rounds|)
      ensures used == 0 ==> OnlyGroup(g)
      ensures freecount == old(freecount) + PagesOf(Flat(rounds[..used]))
      ensures LeftOf(Allocs(), old(Allocs()), Flat(rounds[..used]))
      ensures g < |groups| ==> ValidBut(g) && SplitReady(groups[g], order, n, e)
      ensures g < |groups| && used == 0 ==>
        old(FreeLists()) == FreeLists() || (LargerKept(old(FreeLists()), FreeLists(), order + 1) && !Has(old(FreeLists()), order))
      ensures forall i :: 0 <= i < |groups| ==> |old(groups[i].free)| == NSIZES
      ensures used == 0 ==> forall i :: 0 <= i < |groups| && i != g ==> |groups[i].free| == NSIZES
      ensures g == |groups| ==> Valid()
      ensures used > 0 ==> NoneFrom(old(FreeLists()), order)
      ensures g == |groups| && rounds[|rounds| - 1] == [] ==> NoneFrom(FreeLists(), order + 1)
    {
      hide FreePages, Addr, Shr, GroupInv, CoalescedBut, IsFree, Flat, PagesOf, NodesOf, Sum, Valid, ValidBut, SplitReady, Reclaimable,
        LargerKept, FreeLists, Allocs;
      n, e, used := NOWHERE, NOWHERE, 0;
      FlatNothing(rounds);
      NothingTaken(rounds, Allocs());
      ListsThere();
      g := FindGroup(order);
      if g < |groups| {
        n := HeadReady(g, order);
      } else {
        g, n, e, used := SplitDown(order, rounds);
      }
    }

    // The block at the head of a list can be taken.
    ghost method HeadReady(g: nat, order: nat) returns (n: Node)
      requires Valid() && order < NSIZES && g < |groups| && groups[g].free[order] != []
      ensures ValidBut(g) && SplitReady(groups[g], order, n, NOWHERE)
    {
      hide FreePages, Addr, Shr, GroupInv, CoalescedBut, Sum;
      n := groups[g].Head(order);
    }

    // The end of _page_alloc_order: the head of the list is unlinked and counted.
    method TakeReady(g: nat, order: nat, ghost n: Node, ghost e: Node) returns (a: nat)
      requires g < |groups| && ValidBut(g) && SplitReady(groups[g], order, n, e)
      modifies this`freecount, groups
      ensures Valid() && OnlyGroup(g) && n.order == order && a == Addr(order, n.index)
      ensures freecount == old(freecount) - Size(order)
      ensures n !in old(groups[g].alloc) && groups[g].alloc == old(groups[g].alloc) + {n}
      ensures |groups[g].free| == |old(groups[g].free)| == NSIZES
      ensures forall k :: 0 <= k < NSIZES && k != order ==> groups[g].free[k] == old(groups[g].free[k])
    {
      hide FreePages, Addr, Shr, GroupInv, CoalescedBut, IsFree, Sum;
      a := groups[g].TakeHead(order, n, e);
      freecount := freecount - Size(order);
      ValidAfter(g);
    }

    // The free lists of each group.
    ghost function FreeLists(): (s: seq<Lists>)
      reads this, groups
      ensures |s| == |groups| && forall i :: 0 <= i < |s| ==> s[i] == groups[i].free
    {
      seq(|groups|, i requires 0 <= i < |groups| reads this, groups => groups[i].free)
    }

    // The blocks that each group has handed out.
    ghost function Allocs(): (s: seq<set<Node>>)
      reads this, groups
      ensures |s| == |groups| && forall i :: 0 <= i < |s| ==> s[i] == groups[i].alloc
    {
      seq(|groups|, i requires 0 <= i < |groups| reads this, groups => groups[i].alloc)
    }

    // _pagegroup_from_address
    method GroupOf(addr: nat) returns (g: nat)
      requires Valid()
      ensures g <= |groups|
      ensures g < |groups| ==> groups[g].base <= addr < groups[g].base + groups[g].npages
      ensures g == |groups| ==> forall i :: 0 <= i < |groups| ==> !(groups[i].base <= addr < groups[i].base + groups[i].npages)
    {
      g := 0;
      while g < |groups|
        invariant g <= |groups|
        invariant forall i :: 0 <= i < g ==> !(groups[i].base <= addr < groups[i].base + groups[i].npages)
      {
        if addr >= groups[g].base && addr < groups[g].base + groups[g].npages {
          return;
        }
        g := g + 1;
      }
    }

    /** _page_free_order: takes back a block that was handed out; an address of no group is ignored. */
    method FreeOrder(addr: nat, order: nat, ghost g: nat, ghost n: Node)
      requires Valid() && order < NSIZES && g <= |groups|
      requires g < |groups| ==>
        n in groups[g].alloc && n.order == order && addr == groups[g].base + Addr(order, n.index)
      requires g == |groups| ==>
        forall i :: 0 <= i < |groups| ==> !(groups[i].base <= addr < groups[i].base + groups[i].npages)
      modifies this`freecount, groups
      ensures Valid() && OnlyGroup(g)
      ensures g == |groups| ==> freecount == old(freecount)
      ensures g < |groups| ==> groups[g].alloc == old(groups[g].alloc) - {n} && freecount == old(freecount) + Size(order)
    {
      hide FreePages, Addr, Shr, GroupInv, CoalescedBut, IsFree;
      if g < |groups| {
        AllocInGroup(groups[g].free, groups[g].bits, groups[g].alloc, groups[g].tops, n);
      }
      var group := GroupOf(addr);
      if group == |groups| {
        return;
      }
      assert group == g;
      groups[group].Release(addr - groups[group].base, order, n);
      freecount := freecount + Size(order);
      ValidAfter(g);
    }

    // The loop that turns a page count, cast to int, into an order.
    static method OrderFor(npages: nat) returns (order: nat)
      requires npages < 0x1_0000_0000
      ensures order <= NSIZES
      ensures npages < 0x8000_0000 ==>
        (forall k :: 0 <= k < order ==> Size(k) < npages) && (order < NSIZES ==> Size(order) >= npages)
      ensures npages >= 0x8000_0000 ==> order == 0
    {
      var signed := if npages < 0x8000_0000 then npages as int else npages as int - 0x1_0000_0000;
      order := 0;
      while order < NSIZES
        invariant order <= NSIZES
        invariant forall k :: 0 <= k < order ==> Size(k) < signed
        invariant signed < 0 ==> order == 0
      {
        if Size(order) >= signed {
          break;
        }
        order := order + 1;
      }
    }

    /** page_alloc_n: a block that it returns is the smallest with npages pages when npages is below 2^31;
        a larger request turns negative in the comparison and gets a single page. It fails only when no
        block that large was free. */
    method AllocN(npages: nat, rounds: seq<seq<Given>>) returns (r: AllocResult, ghost g: nat, ghost n: Node, used: nat)
      requires Valid() && npages < 0x1_0000_0000 && rounds != [] && Reclaimable(Flat(rounds))
      modifies this`freecount, groups
      ensures Valid() && groups == old(groups) && used <= |rounds|
      ensures r == Panic <==> Size(TOP) < npages < 0x8000_0000
      ensures r == Panic ==> OnlyGroup(|groups|) && freecount == old(freecount) && used == 0
      ensures r != Panic ==> (r == OutOfMemory <==> used == |rounds|)
      ensures r != Panic && used > 0 ==>
        forall i, k :: 0 <= i < |groups| && 0 <= k < NSIZES && (Size(k) >= npages || npages >= 0x8000_0000) ==> old(groups[i].free[k]) == []
      ensures r == OutOfMemory ==> freecount == old(freecount) + PagesOf(Flat(rounds))
      ensures r == OutOfMemory ==>
        forall i :: 0 <= i < |groups| ==> groups[i].alloc == old(groups[i].alloc) - NodesOf(Flat(rounds), i)
      ensures r.Block? ==>
        && g < |groups| && r.addr == groups[g].base + Addr(n.order, n.index)
        && TookOne(groups, old(Allocs()), Flat(rounds[..used]), g, n)
        && freecount == old(freecount) + PagesOf(Flat(rounds[..used])) - Size(n.order)
      ensures r.Block? && used == 0 ==> OnlyGroup(g)
      ensures r.Block? ==> (Size(n.order) >= npages <==> npages < 0x8000_0000)
      ensures r.Block? && npages < 0x8000_0000 ==> forall k :: 0 <= k < n.order ==> Size(k) < npages
      ensures r.Block? && npages >= 0x8000_0000 ==> n.order == 0
    {
      hide GroupInv, CoalescedBut, FreePages, Addr, Sum, Size, Shr, Flat, PagesOf, NodesOf, TookOne;
      g, n, used := 0, NOWHERE, 0;
      SizeZero();
      var order := OrderFor(npages);
      if order == NSIZES {
        return Panic, g, n, used;
      }
      SizeMonotone(order, TOP);
      var addr;
      addr, g, n, used := AllocOrder(order, rounds);
      r := if addr == None then OutOfMemory else Block(addr.value);
    }

    /** page_free_n */
    method FreeN(addr: nat, npages: nat, ghost g: nat, ghost n: Node) returns (panic: bool)
      requires Valid() && npages < 0x1_0000_0000 && g < |groups|
      requires n in groups[g].alloc && addr == groups[g].base + Addr(n.order, n.index)
      requires npages < 0x8000_0000 ==>
        Size(n.order) >= npages && forall k :: 0 <= k < n.order ==> Size(k) < npages
      requires npages >= 0x8000_0000 ==> n.order == 0
      modifies this`freecount, groups
      ensures Valid() && OnlyGroup(g) && !panic
      ensures groups[g].alloc == old(groups[g].alloc) - {n} && freecount == old(freecount) + Size(n.order)
    {
      hide GroupInv, CoalescedBut, FreePages, Addr, Sum, Size, Shr, TopOf;
      BlockInTree(groups[g].free, groups[g].bits, groups[g].alloc, groups[g].tops, n);
      var order := OrderFor(npages);
      assert order == n.order;
      FreeOrder(addr, order, g, n);
      panic := false;
    }

    /** page_alloc_n and page_free_n with the same count: when nothing had to be reclaimed, the same blocks are
        handed out and the same are free as before, and so is the count. */
    method AllocAndFree(npages: nat, rounds: seq<seq<Given>>) returns (r: AllocResult, used: nat)
      requires Valid() && npages < 0x1_0000_0000 && rounds != [] && Reclaimable(Flat(rounds))
      modifies this`freecount, groups
      ensures Valid() && groups == old(groups) && used <= |rounds|
      ensures freecount == old(freecount) + PagesOf(Flat(rounds[..used]))
      ensures forall i :: 0 <= i < |groups| ==> groups[i].alloc == old(groups[i].alloc) - NodesOf(Flat(rounds[..used]), i)
      ensures used == 0 ==> freecount == old(freecount)
      ensures used == 0 ==> forall i :: 0 <= i < |groups| ==>
        groups[i].alloc == old(groups[i].alloc) && FreeNodes(groups[i].free) == old(FreeNodes(groups[i].free))
    {
      hide GroupInv, CoalescedBut, FreePages, Addr, Sum, Size, Shr, Flat, PagesOf, NodesOf, FreeNodes;
      FlatNothing(rounds);
      ghost var g, n;
      r, g, n, used := AllocN(npages, rounds);
      if r.Block? {
        var panic := FreeN(r.addr, npages, g, n);
      } else {
        assert r == OutOfMemory ==> rounds[..used] == rounds;
      }
      forall i | 0 <= i < |groups| && used == 0
        ensures groups[i].alloc == old(groups[i].alloc) && FreeNodes(groups[i].free) == old(FreeNodes(groups[i].free))
      {
        assert groups[i].Valid() && old(groups[i].Valid());
        assert rounds[..used] == rounds[..0] && groups[i].alloc == old(groups[i].alloc);
        SameAllocSameLists(old(groups[i].free), old(groups[i].bits), groups[i].free, groups[i].bits, groups[i].alloc, groups[i].tops);
      }
    }

    /** After any run that has given back all it took, every group is as it was created. */
    lemma AllReturned()
      requires Valid() && forall i :: 0 <= i < |groups| ==> groups[i].alloc == {}
      ensures forall i, n :: 0 <= i < |groups| ==>
        (IsFree(groups[i].free, n) <==> n.order == TOP && n.index < groups[i].tops)
      ensures forall i, k :: 0 <= i < |groups| && 0 <= k < TOP ==> groups[i].free[k] == []
    {
      forall i | 0 <= i < |groups|
        ensures forall n :: IsFree(groups[i].free, n) <==> n.order == TOP && n.index < groups[i].tops
        ensures forall k :: 0 <= k < TOP ==> groups[i].free[k] == []
      {
        assert groups[i].Valid();
        AllFreeIsInitial(groups[i].free, groups[i].bits, groups[i].tops);
      }
    }
  }

  lemma SizeZero()
    ensures Size(0) == 1
  {
  }

  lemma {:induction false} SizeMonotone(j: nat, k: nat)
    requires j <= k
    ensures Size(j) <= Size(k)
  {
    if j < k {
      SizeMonotone(j, k - 1);
    }
  }

  // The node at the head of a non-empty list.
  ghost function HeadNode(free: Lists, tops: nat, k: nat): (n: Node)
    requires WellFormed(free, tops) && k < NSIZES && free[k] != []
    ensures n.order == k && free[k][0] == Addr(k, n.index)
  {
    assert OnOrder(free[k][0], k);
    Node(k, Shr(free[k][0], k))
  }

  lemma AllocInGroup(free: Lists, bits: Maps, alloc: set<Node>, tops: nat, n: Node)
    requires GroupInv(free, bits, alloc, tops) && n in alloc
    ensures Addr(n.order, n.index) < Addr(TOP, tops)
  {
    hide Addr, TopOf, GroupInv;
    BlockInTree(free, bits, alloc, tops, n);
    InTreeBound(n.order, n.index);
    AddrMonotone(TOP, TopOf(n.order, n.index) + 1, tops);
  }

  // ---------------------------------------------------------------------------------------------
  // Addresses in the steps above

  lemma ShrIndex(n: Node)
    ensures Shr(Addr(n.order, n.index), n.order) == n.index
    ensures Shr(Addr(n.order, n.index), n.order + 1) == n.index / 2
  {
    ShrAddr(n.order, n.index);
  }

  lemma HalfAddresses(n: Node)
    requires n.order > 0
    ensures Addr(n.order, n.index) == Addr(n.order - 1, n.Left().index)
    ensures Addr(n.order, n.index) + Size(n.order - 1) == Addr(n.order - 1, n.Right().index)
  {
    AddrNext(n.order - 1, 2 * n.index);
  }

  lemma BuddyAddress(n: Node)
    ensures n.index % 2 == 1 ==> Addr(n.order, n.index) == Addr(n.order, n.Buddy().index) + Size(n.order)
    ensures n.index % 2 == 0 ==> Addr(n.order, n.index) + Size(n.order) == Addr(n.order, n.Buddy().index)
    ensures Addr(n.order + 1, n.Parent().index) == Addr(n.order, if n.index % 2 == 1 then n.index - 1 else n.index)
  {
    AddrNext(n.order, if n.index % 2 == 1 then n.index - 1 else n.index);
  }

  lemma HeadIsFree(free: Lists, n: Node)
    requires n.order < |free| && free[n.order] != [] && free[n.order][0] == Addr(n.order, n.index)
    ensures IsFree(free, n)
  {
  }

  lemma FlipKeepsOwnOrder(bits: Maps, n: Node)
    requires HasBit(bits, n) && (n.order < TOP ==> HasBit(bits, n.Parent()))
    ensures |FlipFor(bits, n)| == |bits| && FlipFor(bits, n)[n.order] == bits[n.order]
  {
  }

  lemma RemoveHead(s: seq<nat>, x: nat)
    requires s != [] && s[0] == x
    ensures x in s && Remove(s, x) == s[1..]
  {
  }

  // ---------------------------------------------------------------------------------------------
  // Which buddies are free after each step

  lemma SplitCoalesced(free: Lists, free': Lists, n: Node, e: Node)
    requires n.order > 0 && IsFree(free, n) && CoalescedBut(free, e) && (e == NOWHERE || e == n.Parent())
    requires forall m :: IsFree(free', m) <==> (IsFree(free, m) && m != n) || m == n.Left() || m == n.Right()
    ensures CoalescedBut(free', n)
  {
    hide IsFree;
    forall p: Node | 0 < p.order <= TOP && p != n && IsFree(free', p.Left()) ensures !IsFree(free', p.Right()) {
      HalfOf(p, n);
      HalfOf(p, n.Left());
      HalfOf(p, n.Right());
      HalfOf(n, n.Left());
      HalfOf(n, n.Right());
    }
  }

  lemma TakeCoalesced(free: Lists, free': Lists, n: Node, e: Node)
    requires CoalescedBut(free, e) && (e == NOWHERE || e == n.Parent())
    requires forall m :: IsFree(free', m) <==> IsFree(free, m) && m != n
    ensures CoalescedBut(free', NOWHERE)
  {
    hide IsFree;
    forall p: Node | 0 < p.order <= TOP && IsFree(free', p.Left()) ensures !IsFree(free', p.Right()) {
      HalfOf(p, n);
    }
  }

  lemma ReleaseCoalesced(free: Lists, n: Node)
    requires CoalescedBut(free, NOWHERE) && n.order < |free|
    requires forall m :: IsFree(Push(free, n), m) <==> IsFree(free, m) || m == n
    ensures CoalescedBut(Push(free, n), n.Parent())
  {
    hide IsFree, Push;
    forall p: Node | 0 < p.order <= TOP && p != n.Parent() && IsFree(Push(free, n), p.Left())
      ensures !IsFree(Push(free, n), p.Right())
    {
      HalfOf(p, n);
    }
  }

  lemma JoinCoalesced(free: Lists, free': Lists, n: Node)
    requires CoalescedBut(free, n.Parent())
    requires forall m :: IsFree(free', m) <==> (IsFree(free, m) && m != n && m != n.Buddy()) || m == n.Parent()
    ensures CoalescedBut(free', n.Parent().Parent())
  {
    hide IsFree;
    BuddyHalves(n);
    forall p: Node | 0 < p.order <= TOP && p != n.Parent().Parent() && IsFree(free', p.Left()) ensures !IsFree(free', p.Right()) {
      HalfOf(p, n.Parent());
      HalfOf(p, n);
      assert n.Parent().Left() in {n, n.Buddy()};
    }
  }

  lemma DoneCoalesced(free: Lists, n: Node)
    requires CoalescedBut(free, n.Parent()) && IsFree(free, n) && !IsFree(free, n.Buddy())
    ensures CoalescedBut(free, NOWHERE)
  {
    hide IsFree;
    BuddyHalves(n);
    assert n.Parent().Left() in {n, n.Buddy()} && n.Parent().Right() in {n, n.Buddy()};
  }

  lemma TopCoalesced(free: Lists, n: Node)
    requires n.order == TOP && CoalescedBut(free, n.Parent())
    ensures CoalescedBut(free, NOWHERE)
  {
    hide IsFree;
  }

  // ---------------------------------------------------------------------------------------------
  // A new group

  // The leftover block that the tail loop puts on the list of order k, if any.
  function TailBlock(npages: nat, k: nat): seq<nat> {
    if Shr(npages, k) % 2 == 1 then [Addr(k, Shr(npages, k) - 1)] else []
  }

  function TopList(t: nat): seq<nat> {
    if t == 0 then [] else [Addr(TOP, t - 1)] + TopList(t - 1)
  }

  ghost predicate BitSays(bits: Maps, n: Node, value: bool) {
    HasBit(bits, n.Parent()) && bits[n.order + 1][n.index / 2] == value
  }

  // Each block below the top order that is free has its pair bit set just when its buddy is not.
  ghost predicate MarkedFree(free: Lists, bits: Maps) {
    forall n: Node :: IsFree(free, n) && n.order < TOP ==> BitSays(bits, n, !IsFree(free, n.Buddy()))
  }

  lemma AddrShrZero(a: nat)
    ensures Shr(a, 0) == a == Addr(0, a)
  {
  }

  lemma {:induction false} AddrZero(k: nat)
    ensures Addr(k, 0) == 0
  {
    if k > 0 {
      AddrZero(k - 1);
    }
  }

  // What the tail loop does to the end of the group, in terms of the remaining bits of npages.
  lemma TailAddress(npages: nat, k: nat)
    ensures Shr(npages, k) % 2 == 1 ==> Addr(k, Shr(npages, k)) == Addr(k, Shr(npages, k) - 1) + Size(k)
    ensures Addr(k + 1, Shr(npages, k + 1)) == Addr(k, Shr(npages, k) - Shr(npages, k) % 2)
  {
    if Shr(npages, k) % 2 == 1 {
      AddrNext(k, Shr(npages, k) - 1);
    }
  }

  lemma TopBelow(t: nat, tops: nat)
    requires t <= tops && Addr(TOP, t) < Addr(TOP, tops)
    ensures t < tops
  {
  }

  lemma TopCount(t: nat, tops: nat)
    requires t <= tops && Addr(TOP, t) >= Addr(TOP, tops)
    ensures t == tops
  {
    if t < tops {
      AddrNext(TOP, t);
      AddrMonotone(TOP, t + 1, tops);
      assert false;
    }
  }

  lemma {:induction false} AddrDouble(k: nat, i: nat)
    ensures Addr(k, 2 * i) == 2 * Addr(k, i)
  {
    if k > 0 {
      AddrDouble(k - 1, 2 * i);
    }
  }

  lemma {:induction false} ShrOfAddr(m: nat, k: nat, i: nat)
    requires k <= m
    ensures Shr(Addr(m, i), k) == Addr(m - k, i)
  {
    if k > 0 {
      ShrOfAddr(m, k - 1, i);
      AddrDouble(m - k, i);
    }
  }

  // Nothing is left over just when every low bit of npages is clear.
  lemma {:induction false} NoTail(npages: nat, k: nat)
    requires k <= TOP && forall j :: k <= j < TOP ==> Shr(npages, j) % 2 == 0
    ensures Addr(k, Shr(npages, k)) == Addr(TOP, Shr(npages, TOP))
    decreases TOP - k
  {
    if k < TOP {
      TailAddress(npages, k);
      NoTail(npages, k + 1);
    }
  }

  ghost predicate IsTop(a: nat, t: nat) {
    OnOrder(a, TOP) && Shr(a, TOP) < t
  }

  lemma {:induction false} TopListIs(t: nat)
    ensures forall a :: a in TopList(t) <==> IsTop(a, t)
    ensures NoRepeats(TopList(t)) && |TopList(t)| == t
  {
    if t > 0 {
      hide Addr, Shr;
      TopListIs(t - 1);
      ShrAddr(TOP, t - 1);
      var rest := TopList(t - 1);
      assert TopList(t) == [Addr(TOP, t - 1)] + rest;
      assert forall i :: 0 <= i < |rest| ==> rest[i] in rest;
    }
  }

  lemma AddressInjective'(k: nat, i: nat, j: nat)
    ensures Addr(k, i) == Addr(k, j) <==> i == j
  {
    ShrAddr(k, i);
    ShrAddr(k, j);
  }

  lemma NoBlocksBelow(bs: set<Node>, n: Node)
    requires forall m :: m in bs ==> m.order >= n.order
    ensures NoneBelow(bs, n)
    decreases n.order
  {
    if n.order > 0 {
      NoBlocksBelow(bs, n.Left());
      NoBlocksBelow(bs, n.Right());
    }
  }

  lemma {:induction false} FreePagesTop(free: Lists, tops: nat)
    requires |free| == NSIZES && |free[TOP]| == tops && forall k :: 0 <= k < TOP ==> free[k] == []
    ensures FreePages(free) == tops * Size(TOP)
  {
    FreePagesNone(free[..TOP]);
  }

  lemma {:induction false} FreePagesNone(free: Lists)
    requires forall k :: 0 <= k < |free| ==> free[k] == []
    ensures FreePages(free) == 0
  {
    if free != [] {
      FreePagesNone(free[..|free| - 1]);
    }
  }

  lemma {:induction false} AddrIsProduct(k: nat, i: nat)
    ensures Addr(k, i) == i * Size(k)
  {
    if k > 0 {
      AddrIsProduct(k - 1, 2 * i);
    }
  }

  lemma TopsFree(free: Lists, tops: nat)
    requires |free| == NSIZES && free[TOP] == TopList(tops) && forall k :: 0 <= k < TOP ==> free[k] == []
    ensures forall n :: IsFree(free, n) <==> n.order == TOP && n.index < tops
    ensures WellFormed(free, tops)
  {
    hide Addr, Shr;
    TopListIs(tops);
    forall n: Node | n.order == TOP ensures IsFree(free, n) <==> n.index < tops {
      ShrAddr(TOP, n.index);
    }
  }

  lemma NewGroup(free: Lists, bits: Maps, npages: nat, tops: nat)
    requires tops == Shr(npages, TOP) && |free| == |bits| == NSIZES
    requires forall k :: 0 <= k < TOP ==> free[k] == TailBlock(npages, k)
    requires free[TOP] == TopList(tops)
    requires Clear(bits, npages)
    ensures npages == Addr(TOP, tops) ==> GroupInv(free, bits, {}, tops) && CoalescedBut(free, NOWHERE)
    ensures npages == Addr(TOP, tops) ==> FreePages(free) == npages
    ensures npages == Addr(TOP, tops) <==> MarkedFree(free, bits)
  {
    hide Addr, Shr, FreePages, TopList, WellFormed, IsFree, MarkedFree, GroupInv, CoalescedBut;
    if npages == Addr(TOP, tops) {
      forall k | 0 <= k < TOP ensures free[k] == [] {
        ShrOfAddr(TOP, k, tops);
        AddrEven(TOP - k, tops);
      }
      TopsFree(free, tops);
      NewGroupValid(free, bits, npages, tops);
      TopListIs(tops);
      FreePagesTop(free, tops);
      AddrIsProduct(TOP, tops);
      MarkedTrivially(free, bits, tops);
    } else {
      AddrShrZero(npages);
      if forall k :: 0 <= k < TOP ==> Shr(npages, k) % 2 == 0 {
        NoTail(npages, 0);
        assert false;
      }
      var k :| 0 <= k < TOP && Shr(npages, k) % 2 != 0;
      UnmarkedTail(free, bits, npages, k);
    }
  }

  lemma AddrEven(k: nat, i: nat)
    requires k > 0
    ensures Addr(k, i) % 2 == 0
  {
    AddrDouble(k - 1, i);
  }

  lemma MarkedTrivially(free: Lists, bits: Maps, tops: nat)
    requires forall n :: IsFree(free, n) <==> n.order == TOP && n.index < tops
    ensures MarkedFree(free, bits)
  {
    hide IsFree;
  }

  lemma NewGroupValid(free: Lists, bits: Maps, npages: nat, tops: nat)
    requires npages == Addr(TOP, tops) && |free| == |bits| == NSIZES && WellFormed(free, tops)
    requires forall n :: IsFree(free, n) <==> n.order == TOP && n.index < tops
    requires Clear(bits, npages)
    ensures GroupInv(free, bits, {}, tops) && CoalescedBut(free, NOWHERE)
  {
    hide Clear, Addr, IsFree, WellFormed, InTree, Partition, PairXor;
    NewPartition(free, tops);
    forall p: Node | p.order > 0 && InTree(p, tops) ensures HasBit(bits, p) && bits[p.order][p.index] == PairXor(free, p) {
      NewBit(free, bits, npages, tops, p);
    }
  }

  lemma NewPartition(free: Lists, tops: nat)
    requires WellFormed(free, tops) && forall n :: IsFree(free, n) <==> n.order == TOP && n.index < tops
    ensures FreeNodes(free) !! {} && Partition(FreeNodes(free) + {}, tops)
  {
    hide IsFree, WellFormed, Tiled, NoneBelow;
    FreeNodesAreFree(free, tops);
    var bs := FreeNodes(free) + {};
    forall t: nat | t < tops ensures Tiled(bs, Node(TOP, t)) {
      assert Node(TOP, t) in bs;
      NoBlocksBelow(bs, Node(TOP, t));
      TiledByItself(bs, Node(TOP, t));
    }
  }

  lemma TiledByItself(bs: set<Node>, n: Node)
    requires n in bs && NoneBelow(bs, n)
    ensures Tiled(bs, n)
  {
  }

  lemma NewBit(free: Lists, bits: Maps, npages: nat, tops: nat, p: Node)
    requires npages == Addr(TOP, tops) && Clear(bits, npages) && p.order > 0 && InTree(p, tops)
    requires forall n :: IsFree(free, n) <==> n.order == TOP && n.index < tops
    ensures HasBit(bits, p) && !bits[p.order][p.index] && !PairXor(free, p)
  {
    hide Clear, Addr, Shr, IsFree;
    InTreeBound(p.order, p.index);
    AddrMonotone(TOP, TopOf(p.order, p.index) + 1, tops);
    AddrNext(p.order, p.index);
    ShrMonotone(Addr(p.order, p.index + 1), npages, p.order);
    ShrAddr(p.order, p.index + 1);
    ClearBit(bits, npages, p.order, p.index);
  }

  lemma ClearBit(bits: Maps, npages: nat, k: nat, i: nat)
    requires Clear(bits, npages) && 0 < k < NSIZES && i < Shr(npages, k)
    ensures k < |bits| && i < |bits[k]| && !bits[k][i]
  {
  }

  lemma NeverSet(bits: Maps, npages: nat, n: Node)
    requires Clear(bits, npages) && n.order + 1 < NSIZES
    ensures !BitSays(bits, n, true)
  {
    hide Shr;
  }

  // A leftover block is free, its buddy lies beyond the group, and their bit is clear.
  lemma UnmarkedTail(free: Lists, bits: Maps, npages: nat, k: nat)
    requires k < TOP && Shr(npages, k) % 2 == 1 && |free| == |bits| == NSIZES
    requires free[k] == TailBlock(npages, k)
    requires Clear(bits, npages)
    ensures !MarkedFree(free, bits)
  {
    hide Addr, Clear, BitSays, Shr;
    var n := Node(k, Shr(npages, k) - 1);
    assert IsFree(free, n);
    assert n.Buddy() == Node(k, Shr(npages, k));
    AddressInjective'(k, Shr(npages, k) - 1, Shr(npages, k));
    assert !IsFree(free, n.Buddy());
    NeverSet(bits, npages, n);
  }
}
