/** The free lists and pair bitmaps of one page group (`kernel/mm/page.c`), as values, and what each
    elementary step keeps.  Pages are numbered from the base of the group. */
module BuddyLists {
  import opened BuddyTree

  type Lists = seq<seq<nat>>    // pg_freelist: per order, the first pages of the free blocks
  type Maps = seq<seq<bool>>    // pg_map: per order, one bit for each pair of halves

  ghost predicate NoRepeats(s: seq<nat>) {
    forall i, j :: 0 <= i < j < |s| ==> s[i] != s[j]
  }

  ghost predicate IsFree(free: Lists, n: Node) {
    n.order < |free| && Addr(n.order, n.index) in free[n.order]
  }

  ghost predicate WellFormed(free: Lists, tops: nat) {
    && |free| == TOP + 1
    && (forall k :: 0 <= k <= TOP ==> NoRepeats(free[k]))
    && (forall k, a :: 0 <= k <= TOP && a in free[k] ==> OnOrder(a, k) && InTree(Node(k, Shr(a, k)), tops))
  }

  // a is the first page of a block of order k.
  predicate OnOrder(a: nat, k: nat) {
    a == Addr(k, Shr(a, k))
  }

  ghost function FreeNodes(free: Lists): set<Node> {
    set k, a | 0 <= k < |free| && a in free[k] :: Node(k, Shr(a, k))
  }

  lemma FreeNodesAreFree(free: Lists, tops: nat)
    requires WellFormed(free, tops)
    ensures forall n :: n in FreeNodes(free) <==> IsFree(free, n)
    ensures forall n :: IsFree(free, n) ==> InTree(n, tops)
  {
    forall n ensures n in FreeNodes(free) <==> IsFree(free, n) {
      if IsFree(free, n) {
        ShrAddr(n.order, n.index);
      }
      if n in FreeNodes(free) {
        var k, a :| 0 <= k < |free| && a in free[k] && n == Node(k, Shr(a, k));
        assert OnOrder(a, k);
      }
    }
    forall n | IsFree(free, n) ensures InTree(n, tops) {
      ShrAddr(n.order, n.index);
    }
  }

  // ---------------------------------------------------------------------------------------------
  // List operations

  // s without its first x.
  function Remove(s: seq<nat>, x: nat): seq<nat>
    requires x in s
  {
    if s[0] == x then s[1..] else [s[0]] + Remove(s[1..], x)
  }

  lemma {:induction false} RemoveIs(s: seq<nat>, x: nat)
    requires x in s && NoRepeats(s)
    ensures forall y :: y in Remove(s, x) <==> y in s && y != x
    ensures NoRepeats(Remove(s, x)) && |Remove(s, x)| == |s| - 1
  {
    assert forall y :: y in s <==> y == s[0] || y in s[1..];
    if s[0] == x {
    } else {
      RemoveIs(s[1..], x);
      var r := Remove(s[1..], x);
      assert forall i :: 0 <= i < |r| ==> r[i] in r;
      assert s[0] !in s[1..];
    }
  }

  function Push(free: Lists, n: Node): Lists
    requires n.order < |free|
  {
    free[n.order := [Addr(n.order, n.index)] + free[n.order]]
  }

  function Unlink(free: Lists, n: Node): Lists
    requires IsFree(free, n)
  {
    free[n.order := Remove(free[n.order], Addr(n.order, n.index))]
  }

  function FreePages(free: Lists): nat {
    if free == [] then 0 else FreePages(free[..|free| - 1]) + |free[|free| - 1]| * Size(|free| - 1)
  }

  lemma {:induction false} FreePagesUpdate(free: Lists, k: nat, l: seq<nat>)
    requires k < |free|
    ensures FreePages(free[k := l]) == FreePages(free) - |free[k]| * Size(k) + |l| * Size(k)
  {
    var n := |free| - 1;
    if k == n {
      assert free[k := l][..n] == free[..n];
    } else {
      assert free[k := l][..n] == free[..n][k := l];
      FreePagesUpdate(free[..n], k, l);
    }
  }

  lemma Distribute(x: int, y: int, p: int)
    ensures (x + y) * p == x * p + y * p
  {
  }

  lemma AddressInjective(n: Node, m: Node)
    requires n.order == m.order && Addr(n.order, n.index) == Addr(m.order, m.index)
    ensures n == m
  {
    ShrAddr(n.order, n.index);
    ShrAddr(m.order, m.index);
  }

  lemma PushIs(free: Lists, tops: nat, n: Node)
    requires WellFormed(free, tops) && InTree(n, tops) && !IsFree(free, n)
    ensures WellFormed(Push(free, n), tops)
    ensures forall m :: IsFree(Push(free, n), m) <==> IsFree(free, m) || m == n
    ensures FreePages(Push(free, n)) == FreePages(free) + Size(n.order)
  {
    hide TopOf, FreePages, Size, Shr, Addr;
    var free', a := Push(free, n), Addr(n.order, n.index);
    ShrAddr(n.order, n.index);
    forall m ensures IsFree(free', m) <==> IsFree(free, m) || m == n {
      if m.order == n.order && Addr(m.order, m.index) == a {
        AddressInjective(m, n);
      }
    }
    FreePagesUpdate(free, n.order, [a] + free[n.order]);
    Distribute(|free[n.order]|, 1, Size(n.order));
  }

  lemma UnlinkIs(free: Lists, tops: nat, n: Node)
    requires WellFormed(free, tops) && IsFree(free, n)
    ensures WellFormed(Unlink(free, n), tops)
    ensures forall m :: IsFree(Unlink(free, n), m) <==> IsFree(free, m) && m != n
    ensures FreePages(Unlink(free, n)) + Size(n.order) == FreePages(free)
  {
    hide TopOf, FreePages, Size, Shr, Addr;
    var free', a := Unlink(free, n), Addr(n.order, n.index);
    RemoveIs(free[n.order], a);
    forall m ensures IsFree(free', m) <==> IsFree(free, m) && m != n {
      if m.order == n.order && Addr(m.order, m.index) == a {
        AddressInjective(m, n);
      }
    }
    FreePagesUpdate(free, n.order, Remove(free[n.order], a));
    Distribute(|free[n.order]|, -1, Size(n.order));
  }

  // ---------------------------------------------------------------------------------------------
  // The pair bitmaps

  function Flip(bits: Maps, p: Node): Maps
    requires p.order < |bits| && p.index < |bits[p.order]|
  {
    bits[p.order := bits[p.order][p.index := !bits[p.order][p.index]]]
  }

  // Exactly one half of p is on its free list.
  ghost predicate PairXor(free: Lists, p: Node)
    requires p.order > 0
  {
    IsFree(free, p.Left()) != IsFree(free, p.Right())
  }

  ghost predicate HasBit(bits: Maps, p: Node) {
    p.order < |bits| && p.index < |bits[p.order]|
  }

  ghost predicate BitsFit(bits: Maps, tops: nat) {
    |bits| == TOP + 1 && forall p: Node :: p.order > 0 && InTree(p, tops) ==> HasBit(bits, p)
  }

  ghost predicate PairBits(free: Lists, bits: Maps, tops: nat) {
    && BitsFit(bits, tops)
    && forall p: Node :: p.order > 0 && InTree(p, tops) ==> HasBit(bits, p) && bits[p.order][p.index] == PairXor(free, p)
  }

  // The bit flipped when the membership of n changes; the top order has none.
  function FlipFor(bits: Maps, n: Node): Maps
    requires n.order < TOP ==> HasBit(bits, n.Parent())
  {
    if n.order < TOP then Flip(bits, n.Parent()) else bits
  }

  lemma PairBitsFlip(free: Lists, free': Lists, bits: Maps, tops: nat, n: Node)
    requires PairBits(free, bits, tops) && InTree(n, tops)
    requires forall p: Node :: p.order > 0 && p != n.Parent() && InTree(p, tops) ==> PairXor(free', p) == PairXor(free, p)
    requires PairXor(free', n.Parent()) != PairXor(free, n.Parent())
    ensures n.order < TOP ==> HasBit(bits, n.Parent())
    ensures PairBits(free', FlipFor(bits, n), tops)
  {
    hide IsFree, PairXor, TopOf;
    if n.order < TOP {
      ParentInTree(n, tops);
    }
  }

  lemma ParentInTree(n: Node, tops: nat)
    requires InTree(n, tops) && n.order < TOP
    ensures InTree(n.Parent(), tops)
  {
  }

  lemma HalfOf(p: Node, n: Node)
    requires p.order > 0
    ensures n == p.Left() || n == p.Right() <==> p == n.Parent()
  {
  }

  // The membership of one block changes, or of one block and, together, of both its halves.
  lemma ToggleOne(free: Lists, free': Lists, bits: Maps, tops: nat, n: Node)
    requires PairBits(free, bits, tops) && InTree(n, tops)
    requires IsFree(free', n) != IsFree(free, n)
    requires forall m :: m != n && !(m.order < n.order && m.Parent() == n) ==> (IsFree(free', m) <==> IsFree(free, m))
    requires n.order > 0 ==> PairXor(free, n) == PairXor(free', n)
    ensures n.order < TOP ==> HasBit(bits, n.Parent())
    ensures PairBits(free', FlipFor(bits, n), tops)
  {
    hide IsFree, PairBits;
    forall p: Node | p.order > 0
      ensures PairXor(free', p) == if p == n.Parent() then !PairXor(free, p) else PairXor(free, p)
    {
      HalfOf(p, n);
      HalfOf(p, p.Left());
      HalfOf(p, p.Right());
    }
    PairBitsFlip(free, free', bits, tops, n);
  }

  // ---------------------------------------------------------------------------------------------
  // The group invariant

  ghost predicate GroupInv(free: Lists, bits: Maps, alloc: set<Node>, tops: nat) {
    && WellFormed(free, tops)
    && FreeNodes(free) !! alloc
    && Partition(FreeNodes(free) + alloc, tops)
    && PairBits(free, bits, tops)
  }

  // No two buddies are free, but for the halves of e.
  ghost predicate CoalescedBut(free: Lists, e: Node) {
    forall p: Node :: 0 < p.order <= TOP && p != e && IsFree(free, p.Left()) ==> !IsFree(free, p.Right())
  }

  const NOWHERE := Node(0, 0)

  lemma ListCount(free: Lists, bits: Maps, alloc: set<Node>, tops: nat)
    requires GroupInv(free, bits, alloc, tops)
    ensures |free| == |bits| == TOP + 1
  {
  }

  lemma BlockInTree(free: Lists, bits: Maps, alloc: set<Node>, tops: nat, n: Node)
    requires GroupInv(free, bits, alloc, tops) && (IsFree(free, n) || n in alloc)
    ensures InTree(n, tops) && n.order <= TOP
    ensures n.order < TOP ==> InTree(n.Parent(), tops) && HasBit(bits, n.Parent())
  {
    hide WellFormed, FreeNodes, IsFree, TopOf, Tiled, PairXor;
    FreeNodesAreFree(free, tops);
    assert n in FreeNodes(free) + alloc;
    if n.order < TOP {
      ParentInTree(n, tops);
    }
  }

  /** Taking a free block off its list to hand it out. */
  lemma AllocStep(free: Lists, bits: Maps, alloc: set<Node>, tops: nat, n: Node)
    requires GroupInv(free, bits, alloc, tops) && IsFree(free, n)
    ensures n.order < TOP ==> HasBit(bits, n.Parent())
    ensures GroupInv(Unlink(free, n), FlipFor(bits, n), alloc + {n}, tops)
  {
    hide WellFormed, FreeNodes, IsFree, TopOf, Partition, PairBits, PairXor, Unlink, FlipFor;
    BlockInTree(free, bits, alloc, tops, n);
    var free' := Unlink(free, n);
    UnlinkIs(free, tops, n);
    FreeNodesAreFree(free, tops);
    FreeNodesAreFree(free', tops);
    assert FreeNodes(free') + (alloc + {n}) == FreeNodes(free) + alloc;
    HalvesSame(free, free', n);
    ToggleOne(free, free', bits, tops, n);
  }

  lemma HalvesSame(free: Lists, free': Lists, n: Node)
    requires forall m :: m != n ==> (IsFree(free', m) <==> IsFree(free, m))
    ensures n.order > 0 ==> PairXor(free, n) == PairXor(free', n)
  {
    hide IsFree;
  }

  /** Putting an allocated block back on its list. */
  lemma ReleaseStep(free: Lists, bits: Maps, alloc: set<Node>, tops: nat, n: Node)
    requires GroupInv(free, bits, alloc, tops) && n in alloc
    ensures n.order <= TOP && (n.order < TOP ==> HasBit(bits, n.Parent()))
    ensures !IsFree(free, n)
    ensures GroupInv(Push(free, n), FlipFor(bits, n), alloc - {n}, tops)
    ensures forall m :: IsFree(Push(free, n), m) <==> IsFree(free, m) || m == n
    ensures FreePages(Push(free, n)) == FreePages(free) + Size(n.order)
  {
    hide FreeNodes, IsFree, TopOf, Partition, PairBits, PairXor, Push, FlipFor, FreePages, NoRepeats, OnOrder;
    BlockInTree(free, bits, alloc, tops, n);
    FreeNodesAreFree(free, tops);
    var free' := Push(free, n);
    PushIs(free, tops, n);
    FreeNodesAreFree(free', tops);
    assert FreeNodes(free') + (alloc - {n}) == FreeNodes(free) + alloc;
    HalvesSame(free, free', n);
    ToggleOne(free, free', bits, tops, n);
  }

  function SplitLists(free: Lists, n: Node): Lists
    requires 0 < n.order && IsFree(free, n)
  {
    Push(Push(Unlink(free, n), n.Left()), n.Right())
  }

  lemma SplitListsIs(free: Lists, tops: nat, n: Node)
    requires WellFormed(free, tops) && IsFree(free, n) && n.order > 0
    requires InTree(n.Left(), tops) && InTree(n.Right(), tops) && !IsFree(free, n.Left()) && !IsFree(free, n.Right())
    ensures WellFormed(SplitLists(free, n), tops)
    ensures FreePages(SplitLists(free, n)) == FreePages(free)
    ensures forall m :: IsFree(SplitLists(free, n), m) <==> (IsFree(free, m) && m != n) || m == n.Left() || m == n.Right()
  {
    hide IsFree, TopOf, Push, FreePages, NoRepeats, OnOrder;
    UnlinkIs(free, tops, n);
    PushIs(Unlink(free, n), tops, n.Left());
    PushIs(Push(Unlink(free, n), n.Left()), tops, n.Right());
  }

  /** Splitting a free block into its halves. */
  lemma SplitStep(free: Lists, bits: Maps, alloc: set<Node>, tops: nat, n: Node)
    requires GroupInv(free, bits, alloc, tops) && IsFree(free, n) && n.order > 0
    ensures n.order < TOP ==> HasBit(bits, n.Parent())
    ensures HasBit(bits, n) && !bits[n.order][n.index]
    ensures GroupInv(SplitLists(free, n), FlipFor(bits, n), alloc, tops)
    ensures FreePages(SplitLists(free, n)) == FreePages(free)
    ensures forall m :: IsFree(SplitLists(free, n), m) <==> (IsFree(free, m) && m != n) || m == n.Left() || m == n.Right()
  {
    hide WellFormed, FreeNodes, IsFree, TopOf, SplitLists, FreePages, Partition, FlipFor;
    BlockInTree(free, bits, alloc, tops, n);
    FreeNodesAreFree(free, tops);
    PartitionSplit(FreeNodes(free) + alloc, tops, n);
    HalvesInTree(n, tops);
    SplitListsIs(free, tops, n);
    var free' := SplitLists(free, n);
    FreeNodesAreFree(free', tops);
    assert FreeNodes(free') + alloc == FreeNodes(free) + alloc - {n} + {n.Left(), n.Right()};
    OnlyHalves(free, free', n);
    ToggleOne(free, free', bits, tops, n);
  }

  lemma TopOfHalves(k: nat, i: nat)
    requires 0 < k <= TOP
    ensures TopOf(k - 1, 2 * i) == TopOf(k, i) == TopOf(k - 1, 2 * i + 1)
  {
    assert (2 * i) / 2 == i && (2 * i + 1) / 2 == i;
  }

  lemma HalvesInTree(n: Node, tops: nat)
    requires InTree(n, tops) && n.order > 0
    ensures InTree(n.Left(), tops) && InTree(n.Right(), tops)
  {
    TopOfHalves(n.order, n.index);
  }

  // Where only a block and its halves change, the condition of ToggleOne holds.
  lemma OnlyHalves(free: Lists, free': Lists, n: Node)
    requires n.order > 0
    requires forall m :: m != n && m != n.Left() && m != n.Right() ==> (IsFree(free', m) <==> IsFree(free, m))
    ensures forall m :: m != n && !(m.order < n.order && m.Parent() == n) ==> (IsFree(free', m) <==> IsFree(free, m))
  {
    hide IsFree;
  }

  function JoinLists(free: Lists, a: Node, b: Node): Lists
    requires a.order == b.order && a.order + 1 < |free| && a != b
    requires IsFree(free, a) && IsFree(Unlink(free, a), b)
  {
    Push(Unlink(Unlink(free, a), b), a.Parent())
  }

  lemma JoinListsIs(free: Lists, tops: nat, a: Node, b: Node)
    requires WellFormed(free, tops) && a.order < TOP && a.order == b.order && a != b
    requires IsFree(free, a) && IsFree(free, b) && InTree(a.Parent(), tops) && !IsFree(free, a.Parent())
    ensures |free| == TOP + 1 && IsFree(Unlink(free, a), b)
    ensures WellFormed(JoinLists(free, a, b), tops)
    ensures FreePages(JoinLists(free, a, b)) + Size(a.order) + Size(a.order) == FreePages(free) + Size(a.order + 1)
    ensures forall m :: IsFree(JoinLists(free, a, b), m) <==> (IsFree(free, m) && m != a && m != b) || m == a.Parent()
  {
    hide IsFree, TopOf, FreePages, NoRepeats, OnOrder, Push;
    UnlinkIs(free, tops, a);
    UnlinkIs(Unlink(free, a), tops, b);
    PushIs(Unlink(Unlink(free, a), b), tops, a.Parent());
  }

  lemma BuddyHalves(a: Node)
    ensures a.Buddy() != a && a.Buddy().order == a.order
    ensures {a, a.Buddy()} == {a.Parent().Left(), a.Parent().Right()}
    ensures a.Buddy().Buddy() == a && a.Buddy().Parent() == a.Parent()
  {
    assert a == a.Parent().Left() || a == a.Parent().Right();
  }

  /** Joining two free buddies. */
  lemma JoinStep(free: Lists, bits: Maps, alloc: set<Node>, tops: nat, a: Node)
    requires GroupInv(free, bits, alloc, tops) && a.order < TOP
    requires IsFree(free, a) && IsFree(free, a.Buddy())
    ensures a.Buddy() != a && IsFree(Unlink(free, a), a.Buddy())
    ensures var n := a.Parent(); n.order < TOP ==> HasBit(bits, n.Parent())
    ensures GroupInv(JoinLists(free, a, a.Buddy()), FlipFor(bits, a.Parent()), alloc, tops)
    ensures FreePages(JoinLists(free, a, a.Buddy())) == FreePages(free)
    ensures forall m :: IsFree(JoinLists(free, a, a.Buddy()), m)
                   <==> (IsFree(free, m) && m != a && m != a.Buddy()) || m == a.Parent()
  {
    hide WellFormed, FreeNodes, IsFree, TopOf, JoinLists, FreePages, Partition, FlipFor, PairBits;
    var b, n := a.Buddy(), a.Parent();
    BuddyHalves(a);
    FreeNodesAreFree(free, tops);
    assert n.Left() in {a, b} && n.Right() in {a, b};
    PartitionJoin(FreeNodes(free) + alloc, tops, n);
    JoinListsIs(free, tops, a, b);
    var free' := JoinLists(free, a, b);
    FreeNodesAreFree(free', tops);
    assert FreeNodes(free') + alloc == FreeNodes(free) + alloc - {n.Left(), n.Right()} + {n};
    OnlyHalves(free, free', n);
    ToggleOne(free, free', bits, tops, n);
  }

  /** The merge test: a clear bit says that the buddy of a free block is on the list too. */
  lemma ClearBitMeansBuddyFree(free: Lists, bits: Maps, alloc: set<Node>, tops: nat, a: Node)
    requires GroupInv(free, bits, alloc, tops) && IsFree(free, a) && a.order < TOP
    ensures HasBit(bits, a.Parent())
    ensures !bits[a.order + 1][a.index / 2] <==> IsFree(free, a.Buddy())
  {
    hide WellFormed, FreeNodes, IsFree, TopOf, Partition;
    BlockInTree(free, bits, alloc, tops, a);
    BuddyHalves(a);
    assert a.Parent().Left() in {a, a.Buddy()} && a.Parent().Right() in {a, a.Buddy()};
  }

  /** With nothing allocated and all buddies merged, the free lists are those of a new group. */
  lemma AllFreeIsInitial(free: Lists, bits: Maps, tops: nat)
    requires GroupInv(free, bits, {}, tops) && CoalescedBut(free, NOWHERE)
    ensures forall n :: IsFree(free, n) <==> n.order == TOP && n.index < tops
    ensures forall k :: 0 <= k < TOP ==> free[k] == []
    ensures forall p: Node :: p.order > 0 && InTree(p, tops) ==> HasBit(bits, p) && !bits[p.order][p.index]
  {
    hide FreeNodes, IsFree, TopOf, Partition, Addr, Shr;
    FreeNodesAreFree(free, tops);
    CoalescedBuddies(free, tops);
    FullyCoalesced(FreeNodes(free) + {}, tops);
    forall k | 0 <= k < TOP ensures free[k] == [] {
      if free[k] != [] {
        ListedIsFree(free, tops, k, free[k][0]);
        assert false;
      }
    }
    forall p: Node | p.order > 0 && InTree(p, tops) ensures HasBit(bits, p) && !bits[p.order][p.index] {
      assert !IsFree(free, p.Left()) && !IsFree(free, p.Right());
    }
  }

  // In a merged state no two buddies are free.
  lemma CoalescedBuddies(free: Lists, tops: nat)
    requires WellFormed(free, tops) && CoalescedBut(free, NOWHERE)
    ensures NoBuddies(FreeNodes(free))
  {
    hide FreeNodes, IsFree, WellFormed;
    FreeNodesAreFree(free, tops);
    forall n | n in FreeNodes(free) && n.order < TOP ensures n.Buddy() !in FreeNodes(free) {
      BuddyHalves(n);
      var p := n.Parent();
      assert p.Left() in {n, n.Buddy()} && p.Right() in {n, n.Buddy()};
      assert IsFree(free, p.Left()) ==> !IsFree(free, p.Right());
    }
  }

  /** Two merged states with the same blocks handed out have the same free blocks. */
  lemma SameAllocSameLists(free: Lists, bits: Maps, free': Lists, bits': Maps, alloc: set<Node>, tops: nat)
    requires GroupInv(free, bits, alloc, tops) && CoalescedBut(free, NOWHERE)
    requires GroupInv(free', bits', alloc, tops) && CoalescedBut(free', NOWHERE)
    ensures forall n :: IsFree(free', n) <==> IsFree(free, n)
    ensures FreeNodes(free') == FreeNodes(free)
  {
    hide FreeNodes, IsFree, WellFormed, Partition, CoalescedBut, NoBuddies;
    CoalescedBuddies(free, tops);
    CoalescedBuddies(free', tops);
    SameAllocSameFree(FreeNodes(free), FreeNodes(free'), alloc, tops);
    FreeNodesAreFree(free, tops);
    FreeNodesAreFree(free', tops);
  }

  lemma ListedIsFree(free: Lists, tops: nat, k: nat, a: nat)
    requires WellFormed(free, tops) && k <= TOP && a in free[k]
    ensures IsFree(free, Node(k, Shr(a, k)))
  {
    assert OnOrder(a, k);
  }
}
