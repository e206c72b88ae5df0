/** The tree of aligned power-of-two blocks behind the page allocator of `kernel/mm/page.c`.
    Block (order, index) covers 2^order pages starting at page index * 2^order; its halves are
    (order - 1, 2 * index) and (order - 1, 2 * index + 1). */
module BuddyTree {
  const TOP := 7   // PAGE_NSIZES - 1

  datatype Node = Node(order: nat, index: nat) {
    function Left(): Node
      requires order > 0
    {
      Node(order - 1, 2 * index)
    }

    function Right(): Node
      requires order > 0
    {
      Node(order - 1, 2 * index + 1)
    }

    function Parent(): Node {
      Node(order + 1, index / 2)
    }

    function Buddy(): Node {
      Node(order, if index % 2 == 0 then index + 1 else index - 1)
    }
  }

  // 2^k
  function Size(k: nat): (r: nat)
    ensures r >= 1
  {
    if k == 0 then 1 else 2 * Size(k - 1)
  }

  // a >> k
  function Shr(a: nat, k: nat): nat {
    if k == 0 then a else Shr(a, k - 1) / 2
  }

  // i << k: the first page of block (k, i).
  function Addr(k: nat, i: nat): nat {
    if k == 0 then i else Addr(k - 1, 2 * i)
  }

  lemma {:induction false} ShrAddr(k: nat, i: nat)
    ensures Shr(Addr(k, i), k) == i
  {
    if k > 0 {
      ShrAddr(k - 1, 2 * i);
    }
  }

  lemma {:induction false} AddrNext(k: nat, i: nat)
    ensures Addr(k, i + 1) == Addr(k, i) + Size(k)
  {
    if k > 0 {
      AddrNext(k - 1, 2 * i);
      AddrNext(k - 1, 2 * i + 1);
    }
  }

  lemma {:induction false} AddrMonotone(k: nat, i: nat, j: nat)
    requires i <= j
    ensures Addr(k, i) <= Addr(k, j)
    decreases j - i
  {
    if i < j {
      AddrNext(k, i);
      AddrMonotone(k, i + 1, j);
    }
  }

  lemma {:induction false} ShrMonotone(a: nat, b: nat, k: nat)
    requires a <= b
    ensures Shr(a, k) <= Shr(b, k)
  {
    if k > 0 {
      ShrMonotone(a, b, k - 1);
    }
  }

  // The index of the top-order block around (k, i).
  function TopOf(k: nat, i: nat): nat
    requires k <= TOP
    decreases TOP - k
  {
    if k == TOP then i else TopOf(k + 1, i / 2)
  }

  predicate InTree(n: Node, tops: nat) {
    n.order <= TOP && TopOf(n.order, n.index) < tops
  }

  lemma InParent(k: nat, i: nat)
    ensures Addr(k + 1, i / 2) <= Addr(k, i) && Addr(k, i) + Size(k) <= Addr(k + 1, i / 2 + 1)
  {
    hide Addr, Size;
    AddrNext(k, i);
    AddrUp(k, i / 2);
    AddrUp(k, i / 2 + 1);
    AddrMonotone(k, 2 * (i / 2), i);
    AddrMonotone(k, i + 1, 2 * (i / 2 + 1));
  }

  lemma AddrUp(k: nat, i: nat)
    ensures Addr(k + 1, i) == Addr(k, 2 * i)
  {
  }

  lemma TopUp(k: nat, i: nat)
    requires k < TOP
    ensures TopOf(k, i) == TopOf(k + 1, i / 2)
  {
  }

  lemma {:induction false} InTreeBound(k: nat, i: nat)
    requires k <= TOP
    ensures Addr(TOP, TopOf(k, i)) <= Addr(k, i) && Addr(k, i) + Size(k) <= Addr(TOP, TopOf(k, i) + 1)
    decreases TOP - k
  {
    hide Addr, Size;
    AddrNext(k, i);
    if k < TOP {
      hide TopOf;
      InTreeBound(k + 1, i / 2);
      AddrNext(k + 1, i / 2);
      InParent(k, i);
      TopUp(k, i);
    }
  }

  // ---------------------------------------------------------------------------------------------
  // Tilings

  // No block of bs lies strictly inside n.
  ghost predicate NoneBelow(bs: set<Node>, n: Node)
    decreases n.order
  {
    n.order == 0 ||
    (n.Left() !in bs && n.Right() !in bs && NoneBelow(bs, n.Left()) && NoneBelow(bs, n.Right()))
  }

  // The blocks of bs that lie in n cover every page of n, and each page once.
  ghost predicate Tiled(bs: set<Node>, n: Node)
    decreases n.order
  {
    if n in bs then NoneBelow(bs, n)
    else n.order > 0 && Tiled(bs, n.Left()) && Tiled(bs, n.Right())
  }

  lemma {:induction false} NoneBelowSplit(bs: set<Node>, n: Node, m: Node)
    requires n.order > 0 && n in bs && m != n
    requires NoneBelow(bs, m)
    ensures NoneBelow(bs - {n} + {n.Left(), n.Right()}, m)
    decreases m.order
  {
    if m.order > 0 {
      NoneBelowSplit(bs, n, m.Left());
      NoneBelowSplit(bs, n, m.Right());
    }
  }

  /** Splitting a block keeps the tiling. */
  lemma {:induction false} TiledSplit(bs: set<Node>, n: Node, m: Node)
    requires n.order > 0 && n in bs && m != n.Left() && m != n.Right()
    requires Tiled(bs, m)
    ensures Tiled(bs - {n} + {n.Left(), n.Right()}, m)
    decreases m.order
  {
    if m == n {
      NoneBelowSplit(bs, n, n.Left());
      NoneBelowSplit(bs, n, n.Right());
    } else if m in bs {
      NoneBelowSplit(bs, n, m);
    } else {
      TiledSplit(bs, n, m.Left());
      TiledSplit(bs, n, m.Right());
    }
  }

  lemma {:induction false} NoneBelowJoin(bs: set<Node>, n: Node, m: Node)
    requires n.order > 0 && n.Left() in bs && n.Right() in bs && m != n
    requires NoneBelow(bs, m)
    ensures NoneBelow(bs - {n.Left(), n.Right()} + {n}, m)
    decreases m.order
  {
    if m.order > 0 {
      assert m.Left() != n && m.Right() != n;
      NoneBelowJoin(bs, n, m.Left());
      NoneBelowJoin(bs, n, m.Right());
    }
  }

  /** Joining two buddies keeps the tiling. */
  lemma {:induction false} TiledJoin(bs: set<Node>, n: Node, m: Node)
    requires n.order > 0 && n.Left() in bs && n.Right() in bs && m != n.Left() && m != n.Right()
    requires Tiled(bs, m)
    ensures Tiled(bs - {n.Left(), n.Right()} + {n}, m)
    decreases m.order
  {
    if m == n {
      NoneBelowJoin(bs, n, n.Left());
      NoneBelowJoin(bs, n, n.Right());
    } else if m in bs {
      NoneBelowJoin(bs, n, m);
    } else {
      TiledJoin(bs, n, m.Left());
      TiledJoin(bs, n, m.Right());
    }
  }

  // Every ancestor of n up to and including m.
  ghost predicate Under(n: Node, m: Node)
    requires n.order <= m.order
    decreases m.order - n.order
  {
    if n.order == m.order then n == m else Under(n.Parent(), m)
  }

  lemma {:induction false} NoneBelowUnder(bs: set<Node>, n: Node, m: Node)
    requires n.order < m.order && Under(n, m) && NoneBelow(bs, m)
    ensures n !in bs && NoneBelow(bs, n)
    decreases m.order - n.order
  {
    var p := n.Parent();
    if p.order < m.order {
      NoneBelowUnder(bs, p, m);
    }
    assert n == p.Left() || n == p.Right();
  }

  /** A block of a tiling has no block around it. */
  lemma {:induction false} TiledAncestor(bs: set<Node>, n: Node, a: Node, m: Node)
    requires n.order < a.order <= m.order && Under(n, a) && Under(a, m)
    requires Tiled(bs, m) && n in bs
    ensures a !in bs
    decreases m.order
  {
    if a in bs {
      if a == m {
        NoneBelowUnder(bs, n, m);
      } else {
        UnderHalf(a, m);
        var h := if Under(a, m.Left()) then m.Left() else m.Right();
        if m in bs {
          NoneBelowUnder(bs, a, m);
        } else {
          TiledAncestor(bs, n, a, h);
        }
      }
      assert false;
    }
  }

  lemma {:induction false} UnderHalf(n: Node, m: Node)
    requires n.order < m.order && Under(n, m)
    ensures Under(n, m.Left()) || Under(n, m.Right())
    decreases m.order - n.order
  {
    var p := n.Parent();
    if p.order < m.order {
      UnderHalf(p, m);
    }
  }

  lemma {:induction false} UnderTop(n: Node)
    requires n.order <= TOP
    ensures Under(n, Node(TOP, TopOf(n.order, n.index)))
    decreases TOP - n.order
  {
    if n.order < TOP {
      UnderTop(n.Parent());
    }
  }

  // The block of order k around page p.
  function Around(p: nat, k: nat): Node {
    Node(k, Shr(p, k))
  }

  /** In a tiled block every page lies in some block of the tiling. */
  lemma {:induction false} TiledCovers(bs: set<Node>, m: Node, p: nat)
    requires Tiled(bs, m) && Around(p, m.order) == m
    ensures exists k :: 0 <= k <= m.order && Around(p, k) in bs
    decreases m.order
  {
    if m in bs {
      assert Around(p, m.order) in bs;
    } else {
      var h := Around(p, m.order - 1);
      assert h == m.Left() || h == m.Right();
      TiledCovers(bs, h, p);
    }
  }

  /** When every block of a tiling is free and no two buddies are, the tiling is the root itself. */
  lemma {:induction false} CoalescedTiling(bs: set<Node>, m: Node)
    requires Tiled(bs, m)
    requires forall n :: n in bs ==> !(n.Buddy() in bs && n.order < m.order)
    ensures m in bs && NoneBelow(bs, m)
    decreases m.order
  {
    if m !in bs {
      CoalescedTiling(bs, m.Left());
      CoalescedTiling(bs, m.Right());
    }
  }

  /** No block of a tiling lies inside another. */
  lemma {:induction false} TiledAt(bs: set<Node>, n: Node, m: Node)
    requires n.order <= m.order && Under(n, m) && Tiled(bs, m) && n in bs
    ensures NoneBelow(bs, n)
    decreases m.order
  {
    if n.order < m.order {
      UnderHalf(n, m);
      if m in bs {
        NoneBelowUnder(bs, n, m);
      } else {
        TiledAt(bs, n, if Under(n, m.Left()) then m.Left() else m.Right());
      }
    }
  }

  // All pages of tops top-order blocks are tiled by bs, which has no block elsewhere.
  ghost predicate Partition(bs: set<Node>, tops: nat) {
    && (forall n :: n in bs ==> InTree(n, tops))
    && (forall t: nat :: t < tops ==> Tiled(bs, Node(TOP, t)))
  }

  lemma PartitionSplit(bs: set<Node>, tops: nat, n: Node)
    requires Partition(bs, tops) && n in bs && n.order > 0
    ensures Partition(bs - {n} + {n.Left(), n.Right()}, tops)
    ensures n.Left() !in bs && n.Right() !in bs
  {
    hide Tiled, NoneBelow, Under;
    UnderTop(n);
    TiledAt(bs, n, Node(TOP, TopOf(n.order, n.index)));
    HalvesNotBlocks(bs, n);
    forall n' | n' in {n.Left(), n.Right()} ensures InTree(n', tops) {
      assert TopOf(n'.order, n'.index) == TopOf(n.order, n.index);
    }
    forall t: nat | t < tops ensures Tiled(bs - {n} + {n.Left(), n.Right()}, Node(TOP, t)) {
      TiledSplit(bs, n, Node(TOP, t));
    }
  }

  lemma HalvesNotBlocks(bs: set<Node>, n: Node)
    requires n.order > 0 && NoneBelow(bs, n)
    ensures n.Left() !in bs && n.Right() !in bs
  {
  }

  lemma HalfUnder(n: Node)
    requires 0 < n.order <= TOP
    ensures Under(n.Left(), n) && TopOf(n.order - 1, n.Left().index) == TopOf(n.order, n.index)
  {
    hide Under, TopOf;
    HalvesIndex(n);
    TopOfHalf(n.order, n.index);
    UnderSelf(n);
    UnderParent(n.Left(), n);
  }

  lemma HalvesIndex(n: Node)
    requires n.order > 0
    ensures n.Left() == Node(n.order - 1, 2 * n.index) && n.Left().Parent() == n
  {
  }

  lemma TopOfHalf(k: nat, i: nat)
    requires 0 < k <= TOP
    ensures TopOf(k - 1, 2 * i) == TopOf(k, i)
  {
    assert 2 * i / 2 == i;
  }

  lemma UnderSelf(n: Node)
    ensures Under(n, n)
  {
  }

  lemma UnderParent(n: Node, m: Node)
    requires n.order < m.order && n.Parent().order <= m.order && Under(n.Parent(), m)
    ensures Under(n, m)
  {
  }

  lemma PartitionJoin(bs: set<Node>, tops: nat, n: Node)
    requires Partition(bs, tops) && 0 < n.order <= TOP && n.Left() in bs && n.Right() in bs
    ensures Partition(bs - {n.Left(), n.Right()} + {n}, tops)
    ensures n !in bs && InTree(n, tops)
  {
    hide Tiled, NoneBelow, Under, TopOf;
    assert InTree(n.Left(), tops);
    UnderTop(n);
    HalfUnder(n);
    TiledAncestor(bs, n.Left(), n, Node(TOP, TopOf(n.order, n.index)));
    forall t: nat | t < tops ensures Tiled(bs - {n.Left(), n.Right()} + {n}, Node(TOP, t)) {
      TiledJoin(bs, n, Node(TOP, t));
    }
  }

  /** A partition covers every page exactly once. */
  lemma PartitionCovers(bs: set<Node>, tops: nat, p: nat)
    requires Partition(bs, tops) && p < Addr(TOP, tops)
    ensures exists k :: 0 <= k <= TOP && Around(p, k) in bs
    ensures forall j, k :: 0 <= j < k <= TOP ==> !(Around(p, j) in bs && Around(p, k) in bs)
  {
    ShrMonotone(p, Addr(TOP, tops), TOP);
    ShrAddr(TOP, tops);
    var t := Shr(p, TOP);
    if t == tops {
      PageBelow(p, TOP);
      assert false;
    }
    TiledCovers(bs, Node(TOP, t), p);
    forall j, k | 0 <= j < k <= TOP && Around(p, j) in bs ensures Around(p, k) !in bs {
      AroundUnder(p, j, k);
      AroundUnder(p, k, TOP);
      TiledAncestor(bs, Around(p, j), Around(p, k), Node(TOP, t));
    }
  }

  lemma {:induction false} AroundUnder(p: nat, j: nat, k: nat)
    requires j <= k
    ensures Under(Around(p, j), Around(p, k))
    decreases k - j
  {
    if j < k {
      AroundUnder(p, j + 1, k);
    }
  }

  // A page is not before the first page of the block around it.
  lemma {:induction false} PageBelow(p: nat, k: nat)
    ensures Addr(k, Shr(p, k)) <= p < Addr(k, Shr(p, k) + 1)
  {
    if k > 0 {
      PageBelow(p, k - 1);
      var i := Shr(p, k - 1);
      AddrMonotone(k - 1, 2 * (i / 2), i);
      AddrMonotone(k - 1, i + 1, 2 * (i / 2) + 2);
    }
  }

  /** With every block free and no two buddies free, exactly the top-order blocks are there. */
  lemma FullyCoalesced(bs: set<Node>, tops: nat)
    requires Partition(bs, tops)
    requires forall n :: n in bs && n.order < TOP ==> n.Buddy() !in bs
    ensures forall n :: n in bs <==> n.order == TOP && n.index < tops
  {
    forall t: nat | t < tops ensures Node(TOP, t) in bs && NoneBelow(bs, Node(TOP, t)) {
      CoalescedTiling(bs, Node(TOP, t));
    }
    forall n | n in bs ensures n.order == TOP {
      UnderTop(n);
      if n.order < TOP {
        NoneBelowUnder(bs, n, Node(TOP, TopOf(n.order, n.index)));
      }
    }
  }

  // ---------------------------------------------------------------------------------------------
  // What is free follows from what is handed out

  ghost predicate NoBuddies(bs: set<Node>) {
    forall n :: n in bs && n.order < TOP ==> n.Buddy() !in bs
  }

  lemma {:induction false} NoneBelowPart(bs: set<Node>, part: set<Node>, m: Node)
    requires part <= bs && NoneBelow(bs, m)
    ensures NoneBelow(part, m)
    decreases m.order
  {
    if m.order > 0 {
      NoneBelowPart(bs, part, m.Left());
      NoneBelowPart(bs, part, m.Right());
    }
  }

  // A block without anything handed out in it is free as a whole.
  lemma {:induction false} FreeAsAWhole(free: set<Node>, alloc: set<Node>, m: Node)
    requires Tiled(free + alloc, m) && NoBuddies(free) && m.order <= TOP
    requires m !in alloc && NoneBelow(alloc, m)
    ensures m in free
    decreases m.order
  {
    if m !in free {
      assert m.Left().Buddy() == m.Right();
      FreeAsAWhole(free, alloc, m.Left());
      FreeAsAWhole(free, alloc, m.Right());
    }
  }

  lemma {:induction false} SameTiling(free: set<Node>, free': set<Node>, alloc: set<Node>, m: Node, n: Node)
    requires Tiled(free + alloc, m) && Tiled(free' + alloc, m) && NoBuddies(free) && NoBuddies(free')
    requires free !! alloc && free' !! alloc
    requires n.order <= m.order <= TOP && Under(n, m) && n in free
    ensures n in free'
    decreases m.order
  {
    if m in free + alloc {
      if n != m {
        NoneBelowUnder(free + alloc, n, m);
        assert false;
      } else if n !in free' {
        NoneBelowPart(free + alloc, alloc, m);
        FreeAsAWhole(free', alloc, m);
      }
    } else if m in free' {
      NoneBelowPart(free' + alloc, alloc, m);
      FreeAsAWhole(free, alloc, m);
    } else {
      UnderHalf(n, m);
      SameTiling(free, free', alloc, if Under(n, m.Left()) then m.Left() else m.Right(), n);
    }
  }

  /** When no two buddies are free, the blocks handed out determine the free ones. */
  lemma SameAllocSameFree(free: set<Node>, free': set<Node>, alloc: set<Node>, tops: nat)
    requires Partition(free + alloc, tops) && Partition(free' + alloc, tops) && free !! alloc && free' !! alloc
    requires NoBuddies(free) && NoBuddies(free')
    ensures free == free'
  {
    hide Tiled, NoneBelow, Under, TopOf, NoBuddies;
    forall n | n in free ensures n in free' {
      assert n in free + alloc;
      UnderTop(n);
      SameTiling(free, free', alloc, Node(TOP, TopOf(n.order, n.index)), n);
    }
    forall n | n in free' ensures n in free {
      assert n in free' + alloc;
      UnderTop(n);
      SameTiling(free', free, alloc, Node(TOP, TopOf(n.order, n.index)), n);
    }
  }
}
