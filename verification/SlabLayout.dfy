/** Slabs of `kernel/mm/slab.c` as values: their sizes, where objects lie in them, and their free lists. */
module SlabLayout {
  import opened Wrappers

  const PAGE_SIZE := 4096
  const PAGE_NSIZES := 8
  const SLAB_MAX_ORDER := 5
  const BUFCTL := 8                     // sizeof(struct slab_bufctl), with its free mark
  const HEADER := 16                    // sizeof(struct slab)

  // PAGE_SIZE << order
  function BlockSize(order: nat): (n: nat)
    ensures n >= PAGE_SIZE
  {
    if order == 0 then PAGE_SIZE else 2 * BlockSize(order - 1)
  }

  // The distance from one object to the next.
  function Stride(objsize: nat): nat {
    objsize + BUFCTL
  }

  // _slab_size
  function SlabSize(objsize: nat, nobjs: nat): nat {
    nobjs * Stride(objsize) + HEADER
  }

  // _slab_nobjs
  function SlabNobjs(objsize: nat, order: nat): nat {
    (BlockSize(order) - HEADER) / Stride(objsize)
  }

  // _slab_waste
  function SlabWaste(objsize: nat, order: nat): int {
    BlockSize(order) - SlabSize(objsize, SlabNobjs(objsize, order))
  }

  lemma Quotient(n: nat, d: nat)
    requires d > 0
    ensures n / d * d <= n < (n / d + 1) * d
  {
    assert n == n / d * d + n % d;
    assert (n / d + 1) * d == n / d * d + d;
  }

  lemma Times(a: nat, b: nat, d: nat)
    requires a <= b
    ensures a * d <= b * d
  {
  }

  /** The number of objects is the greatest that fits, so what is wasted is less than one more object. */
  lemma MostObjects(objsize: nat, order: nat, n: nat)
    ensures 0 <= SlabWaste(objsize, order) < Stride(objsize)
    ensures n <= SlabNobjs(objsize, order) <==> SlabSize(objsize, n) <= BlockSize(order)
  {
    hide BlockSize;
    var d, m := Stride(objsize), SlabNobjs(objsize, order);
    Quotient(BlockSize(order) - HEADER, d);
    assert (m + 1) * d == m * d + d;
    if n <= m {
      Times(n, m, d);
    } else {
      Times(m + 1, n, d);
    }
  }

  lemma {:induction false} BlockSizeGrows(a: nat, b: nat)
    requires a <= b
    ensures BlockSize(a) <= BlockSize(b)
    decreases b
  {
    if a < b {
      BlockSizeGrows(a, b - 1);
    }
  }

  // The order is the best one: no candidate wastes less, and no smaller one as little.
  ghost predicate BestOrder(objsize: nat, order: nat) {
    && order < PAGE_NSIZES && SlabSize(objsize, 1) <= BlockSize(order)
    && (forall o: nat :: o < order && SlabSize(objsize, 1) <= BlockSize(o) ==> SlabWaste(objsize, order) < SlabWaste(objsize, o))
    && (forall o: nat :: order < o < SLAB_MAX_ORDER ==> SlabWaste(objsize, order) <= SlabWaste(objsize, o))
  }

  // ---------------------------------------------------------------------------------------------
  // The same in 32-bit words

  const INT_LIMIT := 0x8000_0000
  const WORD_LIMIT := 0x1_0000_0000
  type u32 = x: nat | x < WORD_LIMIT

  function Word(x: int): u32 {
    x % WORD_LIMIT
  }

  // A word converted to int.
  function ToInt(x: u32): int {
    if x < INT_LIMIT then x else x - WORD_LIMIT
  }

  function StrideWord(objsize: u32): u32 {
    Word(objsize + BUFCTL)
  }

  function SizeWord(objsize: u32, nobjs: nat): u32 {
    Word(nobjs * StrideWord(objsize) + HEADER)
  }

  function Over(n: nat, d: nat): nat
    requires d > 0
  {
    n / d
  }

  function NobjsWord(objsize: u32, order: nat): nat
    requires StrideWord(objsize) > 0
  {
    Over(BlockSize(order) - HEADER, StrideWord(objsize))
  }

  function WasteWord(objsize: u32, order: nat): int
    requires StrideWord(objsize) > 0
  {
    ToInt(Word(BlockSize(order) - SizeWord(objsize, NobjsWord(objsize, order))))
  }

  // minsize of _calc_slab_size, which is an int
  function MinSize(objsize: u32): int {
    ToInt(SizeWord(objsize, 1))
  }

  lemma BlockSizes()
    ensures BlockSize(0) == PAGE_SIZE && BlockSize(PAGE_NSIZES - 1) == 128 * PAGE_SIZE
  {
    assert BlockSize(2) == 4 * PAGE_SIZE;
    assert BlockSize(4) == 16 * PAGE_SIZE;
    assert BlockSize(6) == 64 * PAGE_SIZE;
  }

  lemma WordIs(x: int)
    ensures 0 <= x < WORD_LIMIT ==> Word(x) == x
    ensures WORD_LIMIT <= x < 2 * WORD_LIMIT ==> Word(x) == x - WORD_LIMIT
  {
  }

  /** Below 2^31 nothing wraps. */
  lemma SmallWords(objsize: u32, order: nat)
    requires SlabSize(objsize, 1) < INT_LIMIT && order < PAGE_NSIZES
    ensures StrideWord(objsize) == Stride(objsize) && MinSize(objsize) == SlabSize(objsize, 1)
    ensures NobjsWord(objsize, order) == SlabNobjs(objsize, order)
    ensures WasteWord(objsize, order) == SlabWaste(objsize, order)
  {
    hide BlockSize, Word;
    WordIs(objsize + BUFCTL);
    WordIs(Stride(objsize) + HEADER);
    BlockSizes();
    BlockSizeGrows(order, PAGE_NSIZES - 1);
    var n := SlabNobjs(objsize, order);
    MostObjects(objsize, order, n);
    WordIs(SlabSize(objsize, n));
    WordIs(SlabWaste(objsize, order));
  }

  /** From 2^31 on the least block size is negative or nearly zero. */
  lemma HugeMinSize(objsize: u32)
    requires SlabSize(objsize, 1) >= INT_LIMIT
    ensures MinSize(objsize) < PAGE_SIZE
  {
    hide Word;
    WordIs(objsize + BUFCTL);
    WordIs(StrideWord(objsize) + HEADER);
  }

  // Then no object fits, and all of a block is wasted but the slab structure.
  lemma HugeWords(objsize: u32, order: nat)
    requires SlabSize(objsize, 1) >= INT_LIMIT && objsize + BUFCTL < WORD_LIMIT && order < PAGE_NSIZES
    ensures StrideWord(objsize) > 0 && NobjsWord(objsize, order) == 0
    ensures WasteWord(objsize, order) == BlockSize(order) - HEADER
  {
    hide BlockSize, Word;
    WordIs(objsize + BUFCTL);
    WordIs(HEADER);
    BlockSizes();
    BlockSizeGrows(order, PAGE_NSIZES - 1);
    WordIs(BlockSize(order) - HEADER);
    NoneFits(BlockSize(order) - HEADER, StrideWord(objsize));
  }

  lemma NoneFits(n: nat, d: nat)
    requires n < d
    ensures n / d == 0
  {
  }

  /** An object of 2^31 bytes fits no block, and yet minsize is negative. */
  lemma HugeObject()
    ensures SlabSize(0x8000_0000, 1) > BlockSize(PAGE_NSIZES - 1) && MinSize(0x8000_0000) < 0
    ensures StrideWord(0x8000_0000) > 0 && NobjsWord(0x8000_0000, 0) == 0
  {
    BlockSizes();
    HugeWords(0x8000_0000, 0);
  }

  datatype SlabChoice = Chosen(order: nat, nobjs: nat) | Panic | DivideByZero

  /** _calc_slab_size, in 32-bit arithmetic: it panics exactly for objects that fit no block, and otherwise
      finds the best order, if and only if the size of a slab of one object is below 2^31. From there on
      minsize is converted to a negative or a small number, the least block is taken, and nothing fits. */
  method CalcSlabSize(objsize: u32) returns (r: SlabChoice)
    ensures r == Panic <==> BlockSize(PAGE_NSIZES - 1) < SlabSize(objsize, 1) < INT_LIMIT
    ensures (r == Panic <==> SlabSize(objsize, 1) > BlockSize(PAGE_NSIZES - 1)) <==> SlabSize(objsize, 1) < INT_LIMIT
    ensures r == DivideByZero <==> objsize + BUFCTL == WORD_LIMIT
    ensures r.Chosen? && SlabSize(objsize, 1) < INT_LIMIT ==>
      BestOrder(objsize, r.order) && r.nobjs == SlabNobjs(objsize, r.order) >= 1 && SlabSize(objsize, r.nobjs) <= BlockSize(r.order)
    ensures SlabSize(objsize, 1) >= INT_LIMIT && objsize + BUFCTL < WORD_LIMIT ==> r == Chosen(0, 0)
  {
    hide BlockSize, SlabNobjs, SlabSize, SlabWaste, StrideWord, SizeWord, NobjsWord, WasteWord, MinSize;
    BlockSizes();
    StrideZero(objsize);
    if SlabSize(objsize, 1) < INT_LIMIT {
      SmallWords(objsize, 0);
    } else {
      HugeMinSize(objsize);
    }
    var minsize := MinSize(objsize);
    var minorder := 0;
    while minorder < PAGE_NSIZES && BlockSize(minorder) < minsize
      invariant minorder <= PAGE_NSIZES && forall o: nat :: o < minorder ==> BlockSize(o) < minsize
      invariant SlabSize(objsize, 1) >= INT_LIMIT ==> minorder == 0
    {
      minorder := minorder + 1;
    }
    if minorder == PAGE_NSIZES {
      assert BlockSize(PAGE_NSIZES - 1) < minsize;
      return Panic;
    }
    BlockSizeGrows(minorder, PAGE_NSIZES - 1);
    if StrideWord(objsize) == 0 {
      return DivideByZero;
    }
    var bestOrder, bestWaste := minorder, WasteWord(objsize, minorder);
    var order := minorder + 1;
    while order < SLAB_MAX_ORDER
      invariant minorder <= bestOrder < order && bestOrder < PAGE_NSIZES && bestWaste == WasteWord(objsize, bestOrder)
      invariant order == minorder + 1 || order <= SLAB_MAX_ORDER
      invariant forall o: nat :: minorder <= o < order ==> bestWaste <= WasteWord(objsize, o)
      invariant forall o: nat :: minorder <= o < bestOrder ==> bestWaste < WasteWord(objsize, o)
    {
      var waste := WasteWord(objsize, order);
      if waste < bestWaste {
        bestWaste := waste;
        bestOrder := order;
      }
      order := order + 1;
    }
    if SlabSize(objsize, 1) < INT_LIMIT {
      BestIsBest(objsize, minorder, bestOrder, order);
    } else if objsize + BUFCTL < WORD_LIMIT {
      HugeWords(objsize, 0);
      HugeWords(objsize, bestOrder);
      BlockSizeGrows(0, bestOrder);
    }
    return Chosen(bestOrder, NobjsWord(objsize, bestOrder));
  }

  lemma StrideZero(objsize: u32)
    ensures StrideWord(objsize) == 0 <==> objsize + BUFCTL == WORD_LIMIT
    ensures SlabSize(objsize, 1) == objsize + BUFCTL + HEADER
  {
    WordIs(objsize + BUFCTL);
  }

  // What the loop has found, where nothing wraps.
  lemma BestIsBest(objsize: u32, minorder: nat, best: nat, order: nat)
    requires SlabSize(objsize, 1) < INT_LIMIT && StrideWord(objsize) > 0 && minorder <= best < order <= PAGE_NSIZES
    requires order >= SLAB_MAX_ORDER && SlabSize(objsize, 1) <= BlockSize(minorder)
    requires forall o: nat :: o < minorder ==> BlockSize(o) < SlabSize(objsize, 1)
    requires forall o: nat :: minorder <= o < order ==> WasteWord(objsize, best) <= WasteWord(objsize, o)
    requires forall o: nat :: minorder <= o < best ==> WasteWord(objsize, best) < WasteWord(objsize, o)
    ensures BestOrder(objsize, best) && NobjsWord(objsize, best) == SlabNobjs(objsize, best) >= 1
    ensures SlabSize(objsize, SlabNobjs(objsize, best)) <= BlockSize(best)
  {
    hide BlockSize, SlabNobjs, SlabSize, SlabWaste, StrideWord, NobjsWord, WasteWord, MinSize;
    forall o: nat | o < order ensures WasteWord(objsize, o) == SlabWaste(objsize, o) {
      SmallWords(objsize, o);
    }
    SmallWords(objsize, best);
    BlockSizeGrows(minorder, best);
    MostObjects(objsize, best, 1);
    MostObjects(objsize, best, SlabNobjs(objsize, best));
  }

  // ---------------------------------------------------------------------------------------------
  // Where things are

  // struct slab_bufctl: the next free object, or the slab of an object in use
  datatype Bufctl = Bufctl(link: nat, free: bool)

  // struct slab, except its place in the list
  datatype Slab = Slab(inuse: int, free: nat, addr: nat)

  type Ctls = map<nat, Bufctl>
  type Slabs = map<nat, Slab>

  // The k-th object of a slab that starts at base.
  function ObjAt(base: nat, d: nat, k: nat): nat {
    base + k * d
  }

  lemma ObjNext(base: nat, d: nat, k: nat)
    ensures ObjAt(base, d, k + 1) == ObjAt(base, d, k) + d
    ensures ObjAt(base, d, 0) == base
  {
  }

  lemma ObjOrder(base: nat, d: nat, j: nat, k: nat)
    requires j < k
    ensures ObjAt(base, d, j) + d <= ObjAt(base, d, k)
  {
    ObjNext(base, d, j);
    Times(j + 1, k, d);
  }

  // x is an object of the slab at s.
  ghost predicate IsObj(slabs: Slabs, d: nat, m: nat, s: nat, x: nat) {
    s in slabs && exists k: nat :: k < m && x == ObjAt(slabs[s].addr, d, k)
  }

  // The slab structure comes after the m objects, and everything fits the page block, which overlaps no
  // other slab's.
  ghost predicate Placed(slabs: Slabs, list: seq<nat>, d: nat, m: nat, block: nat) {
    && m * d + HEADER <= block && 1 <= m && BUFCTL <= d
    && slabs.Keys == (set s | s in list)
    && (forall i, j :: 0 <= i < j < |list| ==> list[i] != list[j])
    && (forall s :: s in slabs ==> slabs[s].addr > 0 && s == ObjAt(slabs[s].addr, d, m))
    && (forall s, t :: s in slabs && t in slabs && s != t ==> Apart(slabs[s].addr, block, slabs[t].addr, block))
  }

  // [a, a + n) and [b, b + m) do not overlap.
  predicate Apart(a: nat, n: nat, b: nat, m: nat) {
    a + n <= b || b + m <= a
  }

  /** Objects with their bufctls, and slab structures, never overlap, and lie in the page block of their
      slab. */
  lemma NothingOverlaps(slabs: Slabs, list: seq<nat>, d: nat, m: nat, block: nat, s: nat, x: nat, t: nat, y: nat)
    requires Placed(slabs, list, d, m, block) && IsObj(slabs, d, m, s, x) && IsObj(slabs, d, m, t, y)
    ensures x == y ==> s == t
    ensures x != y ==> Apart(x, d, y, d)
    ensures Apart(x, d, t, HEADER)
    ensures slabs[s].addr <= x && x + d <= slabs[s].addr + block
    ensures slabs[s].addr <= s && s + HEADER <= slabs[s].addr + block
  {
    hide ObjAt;
    var a, b := slabs[s].addr, slabs[t].addr;
    var j: nat :| j < m && x == ObjAt(a, d, j);
    var k: nat :| k < m && y == ObjAt(b, d, k);
    Inside(a, d, m, block, j);
    Inside(b, d, m, block, k);
    if s == t {
      if j < k {
        ObjOrder(a, d, j, k);
      } else if k < j {
        ObjOrder(a, d, k, j);
      }
      ObjOrder(a, d, j, m);
    }
  }

  lemma Inside(base: nat, d: nat, m: nat, block: nat, k: nat)
    requires m * d + HEADER <= block && k < m
    ensures base <= ObjAt(base, d, k) && ObjAt(base, d, k) + d <= ObjAt(base, d, m) && ObjAt(base, d, m) + HEADER <= base + block
  {
    ObjOrder(base, d, k, m);
  }

  // ---------------------------------------------------------------------------------------------
  // Free lists

  // list are the objects reached from head.
  ghost predicate Chain(ctls: Ctls, head: nat, list: seq<nat>)
    decreases |list|
  {
    if list == [] then head == 0
    else head == list[0] && head > 0 && head in ctls && Chain(ctls, ctls[head].link, list[1..])
  }

  lemma {:induction false} ChainKept(ctls: Ctls, ctls': Ctls, head: nat, list: seq<nat>)
    requires Chain(ctls, head, list) && forall x :: x in list ==> x in ctls' && (x in ctls ==> ctls'[x].link == ctls[x].link)
    ensures Chain(ctls', head, list)
    decreases |list|
  {
    if list != [] {
      ChainKept(ctls, ctls', ctls[head].link, list[1..]);
    }
  }

  ghost predicate Distinct(s: seq<nat>) {
    forall i, j :: 0 <= i < j < |s| ==> s[i] != s[j]
  }

  // The free list of a slab is acyclic, made of distinct objects of the slab, as many as are not in use;
  // the others point back to the slab.
  ghost predicate SlabOk(ctls: Ctls, slabs: Slabs, d: nat, m: nat, s: nat, list: seq<nat>)
    requires s in slabs
  {
    && Chain(ctls, slabs[s].free, list) && Distinct(list) && |list| == m - slabs[s].inuse
    && (forall x :: x in list ==> IsObj(slabs, d, m, s, x))
    && (forall x :: IsObj(slabs, d, m, s, x) ==> x in ctls && (ctls[x].free <==> x in list) && (!ctls[x].free ==> ctls[x].link == s))
  }

  lemma SameObjs(slabs: Slabs, slabs': Slabs, d: nat, m: nat, s: nat)
    requires s in slabs && s in slabs' && slabs'[s].addr == slabs[s].addr
    ensures forall x :: IsObj(slabs', d, m, s, x) <==> IsObj(slabs, d, m, s, x)
  {
    hide ObjAt;
    forall x ensures IsObj(slabs', d, m, s, x) <==> IsObj(slabs, d, m, s, x) {
    }
  }

  // What happens to other slabs does not concern this one.
  lemma SlabKept(ctls: Ctls, slabs: Slabs, ctls': Ctls, slabs': Slabs, d: nat, m: nat, s: nat, list: seq<nat>)
    requires s in slabs && s in slabs' && slabs'[s] == slabs[s] && SlabOk(ctls, slabs, d, m, s, list)
    requires forall x :: IsObj(slabs, d, m, s, x) && x in ctls ==> x in ctls' && ctls'[x] == ctls[x]
    ensures SlabOk(ctls', slabs', d, m, s, list)
  {
    ChainKept(ctls, ctls', slabs[s].free, list);
    SameObjs(slabs, slabs', d, m, s);
  }

  /** Taking the head of a free list. */
  lemma TakeKeeps(ctls: Ctls, slabs: Slabs, d: nat, m: nat, s: nat, list: seq<nat>, ctls': Ctls, slabs': Slabs)
    requires s in slabs && SlabOk(ctls, slabs, d, m, s, list) && slabs[s].inuse < m
    requires slabs[s].free in ctls && ctls' == ctls[slabs[s].free := Bufctl(s, false)]
    requires slabs' == slabs[s := Slab(slabs[s].inuse + 1, ctls[slabs[s].free].link, slabs[s].addr)]
    ensures list != [] && slabs[s].free == list[0] && SlabOk(ctls', slabs', d, m, s, list[1..])
  {
    hide IsObj;
    var x := slabs[s].free;
    assert forall y :: y in list <==> y == x || y in list[1..];
    assert x !in list[1..];
    ChainKept(ctls, ctls', ctls[x].link, list[1..]);
    SameObjs(slabs, slabs', d, m, s);
  }

  /** Putting an object in front of a free list. */
  lemma GiveKeeps(ctls: Ctls, slabs: Slabs, d: nat, m: nat, s: nat, list: seq<nat>, x: nat, ctls': Ctls, slabs': Slabs)
    requires s in slabs && SlabOk(ctls, slabs, d, m, s, list) && IsObj(slabs, d, m, s, x) && !ctls[x].free && x > 0
    requires ctls' == ctls[x := Bufctl(slabs[s].free, true)]
    requires slabs' == slabs[s := Slab(slabs[s].inuse - 1, x, slabs[s].addr)]
    ensures SlabOk(ctls', slabs', d, m, s, [x] + list)
  {
    hide IsObj;
    var list' := [x] + list;
    assert x !in list;
    assert list'[1..] == list;
    ChainKept(ctls, ctls', slabs[s].free, list);
    SameObjs(slabs, slabs', d, m, s);
  }

  // ---------------------------------------------------------------------------------------------
  // A new slab

  // The objects of a new slab, from the k-th on.
  function Row(base: nat, d: nat, m: nat, k: nat): (s: seq<nat>)
    requires k <= m
    ensures |s| == m - k
    decreases m - k
  {
    if k == m then [] else [ObjAt(base, d, k)] + Row(base, d, m, k + 1)
  }

  lemma {:induction false} RowAt(base: nat, d: nat, m: nat, k: nat, i: nat)
    requires k <= m && i < m - k
    ensures Row(base, d, m, k)[i] == ObjAt(base, d, k + i)
    decreases m - k
  {
    if i > 0 {
      RowAt(base, d, m, k + 1, i - 1);
    }
  }

  // Each object linked to the next one, and the last to none.
  ghost predicate Linked(ctls: Ctls, base: nat, d: nat, m: nat) {
    && (forall k: nat :: k + 1 < m ==> ObjAt(base, d, k) in ctls && ctls[ObjAt(base, d, k)] == Bufctl(ObjAt(base, d, k + 1), true))
    && (m > 0 ==> ObjAt(base, d, m - 1) in ctls && ctls[ObjAt(base, d, m - 1)] == Bufctl(0, true))
  }

  lemma {:induction false} LinkedChain(ctls: Ctls, base: nat, d: nat, m: nat, k: nat)
    requires Linked(ctls, base, d, m) && k < m && base > 0
    ensures Chain(ctls, ObjAt(base, d, k), Row(base, d, m, k))
    decreases m - k
  {
    hide ObjAt;
    AtLeast(base, d, k);
    if k + 1 < m {
      LinkedChain(ctls, base, d, m, k + 1);
      assert Row(base, d, m, k)[1..] == Row(base, d, m, k + 1);
    } else {
      assert Row(base, d, m, k)[1..] == [];
    }
  }

  lemma AtLeast(base: nat, d: nat, k: nat)
    ensures ObjAt(base, d, k) >= base
  {
  }

  /** A slab whose objects are linked up is in order, and has its first object at the head. */
  lemma NewSlabOk(ctls: Ctls, slabs: Slabs, d: nat, m: nat, s: nat, base: nat)
    requires Linked(ctls, base, d, m) && m > 0 && base > 0 && d > 0
    requires s in slabs && slabs[s] == Slab(0, base, base)
    ensures SlabOk(ctls, slabs, d, m, s, Row(base, d, m, 0))
  {
    hide ObjAt, Chain, Row;
    var list := Row(base, d, m, 0);
    ObjNext(base, d, 0);
    LinkedChain(ctls, base, d, m, 0);
    forall i | 0 <= i < m ensures list[i] == ObjAt(base, d, i) {
      RowAt(base, d, m, 0, i);
    }
    forall i, j | 0 <= i < j < m ensures list[i] != list[j] {
      ObjOrder(base, d, i, j);
    }
    forall x | IsObj(slabs, d, m, s, x) ensures x in list && x in ctls && ctls[x].free {
      var k: nat :| k < m && x == ObjAt(base, d, k);
      assert list[k] == x;
      if k + 1 < m {
        assert ctls[ObjAt(base, d, k)] == Bufctl(ObjAt(base, d, k + 1), true);
      } else {
        assert k == m - 1;
      }
    }
  }

  // ---------------------------------------------------------------------------------------------
  // Counting

  // x is one of the first n objects of a block that starts at base.
  predicate InRow(base: nat, d: nat, n: nat, x: nat) {
    exists k: nat :: k < n && x == ObjAt(base, d, k)
  }

  function Elements(list: seq<nat>): set<nat> {
    set x | x in list
  }

  lemma {:induction false} ElementsSize(list: seq<nat>)
    requires Distinct(list)
    ensures |Elements(list)| == |list|
  {
    if list == [] {
      assert Elements(list) == {};
    } else {
      ElementsSize(list[1..]);
      assert list[0] !in list[1..];
      assert Elements(list) == {list[0]} + Elements(list[1..]);
    }
  }

  function RowSet(base: nat, d: nat, n: nat): set<nat> {
    if n == 0 then {} else RowSet(base, d, n - 1) + {ObjAt(base, d, n - 1)}
  }

  lemma {:induction false} InRowSet(base: nat, d: nat, n: nat, x: nat)
    ensures x in RowSet(base, d, n) <==> InRow(base, d, n, x)
  {
    hide ObjAt;
    if n > 0 {
      InRowSet(base, d, n - 1, x);
      if InRow(base, d, n, x) && x != ObjAt(base, d, n - 1) {
        var k: nat :| k < n && x == ObjAt(base, d, k);
        assert k != n - 1;
      }
    }
  }

  lemma SameSize(a: set<nat>, b: set<nat>)
    requires a <= b
    ensures |a| <= |b| && (|a| == |b| ==> a == b)
  {
    assert b == a + (b - a);
  }

  lemma {:induction false} RowSetSize(base: nat, d: nat, n: nat)
    requires d > 0
    ensures |RowSet(base, d, n)| == n
  {
    hide ObjAt, InRow;
    if n > 0 {
      RowSetSize(base, d, n - 1);
      InRowSet(base, d, n - 1, ObjAt(base, d, n - 1));
      NotYet(base, d, n - 1);
    }
  }

  lemma NotYet(base: nat, d: nat, n: nat)
    requires d > 0
    ensures !InRow(base, d, n, ObjAt(base, d, n))
  {
    hide ObjAt;
    forall k: nat | k < n ensures ObjAt(base, d, k) != ObjAt(base, d, n) {
      ObjOrder(base, d, k, n);
    }
  }

  /** Distinct objects of a slab are no more than it has, and are all of them when they are as many. */
  lemma NoMoreThanFit(base: nat, d: nat, m: nat, list: seq<nat>)
    requires d > 0 && Distinct(list) && forall x :: x in list ==> InRow(base, d, m, x)
    ensures |list| <= m
    ensures |list| == m <==> forall x :: InRow(base, d, m, x) ==> x in list
  {
    hide InRow, Distinct, RowSet;
    var a, b := Elements(list), RowSet(base, d, m);
    ElementsSize(list);
    forall x ensures x in b <==> InRow(base, d, m, x) {
      InRowSet(base, d, m, x);
    }
    RowSetSize(base, d, m);
    assert a <= b && |a| == |list|;
    SameSize(a, b);
    if forall x :: InRow(base, d, m, x) ==> x in list {
      assert a == b;
    }
  }
}
