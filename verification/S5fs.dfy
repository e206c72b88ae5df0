/** The disk-image library `tools/fsmaker/api.py`: block allocation, and reading, writing and emptying
    files, on an image whose state the methods update in place. */
module S5fs {
  import opened Bytes
  import opened S5Layout
  import opened Wrappers

  datatype Error = WrongType | TooLarge | OutOfSpace | BadRead

  class Simdisk {
    // super block
    var nfree: nat
    var freeBlock: seq<nat>
    var lastFree: nat
    // the rest of the disk
    var blocks: Blocks
    var inodes: seq<Inode>
    // the nodes of the free-block chain, and who uses each block in use
    ghost var nodes: seq<nat>
    ghost var owner: map<nat, Use>

    ghost predicate ChainOk()
      reads this
    {
      && BlocksOk(blocks) && nfree <= NODE_ENTRIES && |freeBlock| == NODE_ENTRIES
      && IsChain(blocks, lastFree, nodes)
      && forall i :: 0 <= i < |nodes| ==> nodes[i] < |blocks|
    }

    // The free blocks; the last one is handed out first.
    ghost function Stack(): seq<nat>
      requires ChainOk()
      reads this
    {
      ChainStack(blocks, nodes) + freeBlock[..nfree]
    }

    ghost predicate ListOk()
      reads this
    {
      ChainOk() && AllDifferent(Stack()) && forall b :: b in Stack() ==> 0 < b < |blocks|
    }

    ghost predicate Wf()
      reads this
    {
      && ListOk() && InodesOk(inodes) && Owned(inodes, blocks, owner)
      && forall b :: b in Stack() ==> b !in owner
    }

    // Block.free: pushes a block number.
    method FreeBlock(b: nat)
      requires ListOk() && 0 < b < |blocks| && b !in Stack()
      modifies this`nfree, this`freeBlock, this`lastFree, this`blocks, this`nodes
      ensures ListOk() && Stack() == old(Stack()) + [b]
      ensures |blocks| == old(|blocks|) && blocks == old(blocks)[b := blocks[b]]
    {
      ghost var stack0 := Stack();
      if nfree < NODE_ENTRIES {
        freeBlock := freeBlock[nfree := b];
        nfree := nfree + 1;
        assert freeBlock[..nfree] == old(freeBlock)[..old(nfree)] + [b];
      } else {
        ghost var blocks0, nodes0 := blocks, nodes;
        assert freeBlock[..nfree] == freeBlock;
        WriteNode(b);
        ChainNodesInStack(blocks0, nodes0);
        assert b !in nodes0;
        ChainFrame(blocks0, blocks, lastFree, nodes0);
        lastFree := b;
        nfree := 0;
        nodes := [b] + nodes0;
        assert nodes[1..] == nodes0;
        assert NodeEntries(blocks[b]) == freeBlock;
        assert Stack() == ChainStack(blocks0, nodes0) + freeBlock + [b];
      }
      assert Stack() == stack0 + [b];
    }

    // Packs the full free list, and the link to the next node, into block b.
    method WriteNode(b: nat)
      requires ListOk() && b < |blocks| && nfree == NODE_ENTRIES
      modifies this`blocks
      ensures BlocksOk(blocks) && |blocks| == old(|blocks|) && blocks == old(blocks)[b := blocks[b]]
      ensures forall j :: 0 <= j < NODE_ENTRIES ==> Entry(blocks[b], j) == freeBlock[j]
      ensures Entry(blocks[b], NODE_ENTRIES) == lastFree
    {
      hide Entry, Pack, IsChain, ChainStack;
      FreeNumbersFit();
      for i := 0 to NODE_ENTRIES
        invariant BlocksOk(blocks) && |blocks| == old(|blocks|) && blocks == old(blocks)[b := blocks[b]]
        invariant forall j :: 0 <= j < i ==> Entry(blocks[b], j) == freeBlock[j]
      {
        EntryOverlay(blocks[b], i, freeBlock[i]);
        blocks := PutEntry(blocks, b, i, freeBlock[i]);
      }
      EntryOverlay(blocks[b], NODE_ENTRIES, lastFree);
      blocks := PutEntry(blocks, b, NODE_ENTRIES, lastFree);
    }

    // Every number on the free list can be packed.
    lemma FreeNumbersFit()
      requires ListOk()
      ensures forall i :: 0 <= i < nfree ==> freeBlock[i] <= NO_BLOCK
      ensures lastFree <= NO_BLOCK
    {
      forall i | 0 <= i < nfree ensures freeBlock[i] <= NO_BLOCK {
        assert Stack()[|ChainStack(blocks, nodes)| + i] == freeBlock[i];
        assert freeBlock[i] in Stack();
      }
    }

    // Simdisk.alloc_block: pops a block number.
    method AllocBlock() returns (r: Option<nat>)
      requires ListOk()
      modifies this`nfree, this`freeBlock, this`lastFree, this`nodes
      ensures ListOk()
      ensures r == None <==> old(Stack()) == []
      ensures r == None ==> Stack() == []
      ensures r.Some? ==> Stack() + [r.value] == old(Stack())
    {
      ghost var stack0 := Stack();
      if nfree == 0 {
        if lastFree == NO_BLOCK {
          return None;
        }
        var b := lastFree;
        ghost var last0, nodes0 := lastFree, nodes;
        assert nodes0[0] == b;
        for i := 0 to NODE_ENTRIES
          invariant lastFree == last0 && nodes == nodes0 && nfree == 0
          invariant |freeBlock| == NODE_ENTRIES
          invariant forall j :: 0 <= j < i ==> freeBlock[j] == Entry(blocks[b], j)
        {
          freeBlock := freeBlock[i := Entry(blocks[b], i)];
        }
        lastFree := Entry(blocks[b], NODE_ENTRIES);
        nfree := NODE_ENTRIES;
        nodes := nodes[1..];
        assert freeBlock[..nfree] == NodeEntries(blocks[b]);
        assert Stack() + [b] == stack0;
        StackPrefix(Stack(), b, stack0);
        return Some(b);
      } else {
        nfree := nfree - 1;
        r := Some(freeBlock[nfree]);
        assert freeBlock[..nfree + 1] == freeBlock[..nfree] + [freeBlock[nfree]];
        assert Stack() + [r.value] == stack0;
        StackPrefix(Stack(), r.value, stack0);
      }
    }

    lemma StackPrefix(s: seq<nat>, b: nat, s0: seq<nat>)
      requires s + [b] == s0 && AllDifferent(s0)
      ensures AllDifferent(s) && b !in s
      ensures forall x :: x in s ==> x in s0
    {
      forall x | x in s ensures x in s0 {
        var i :| 0 <= i < |s| && s[i] == x;
        assert s0[i] == x;
      }
      forall i | 0 <= i < |s| ensures s[i] != b {
        assert s0[i] == s[i] && s0[|s|] == b;
      }
      forall i, j | 0 <= i < j < |s| ensures s[i] != s[j] {
        assert s0[i] == s[i] && s0[j] == s[j];
      }
    }

    // ---------------------------------------------------------------------------------------------
    // Files

    ghost predicate IsFile(ino: nat)
      reads this
    {
      ino < |inodes| && inodes[ino].IsFile()
    }

    // Every block of the disk that is free or used by a file.
    ghost function Pool(): set<nat>
      requires ChainOk()
      reads this
    {
      Elements(Stack()) + owner.Keys
    }

    // The pointer to block k of a file.
    ghost function BlockPtr(ino: nat, k: nat): nat
      requires BlocksOk(blocks) && InodesOk(inodes) && IsFile(ino) && k < MAX_BLOCKS
      reads this
    {
      Ptr(inodes, blocks, PlaceOf(ino, k))
    }

    // Allocates, zeroes and links a block where the file has none.
    method LinkNew(u: Use) returns (r: Option<nat>)
      requires Wf() && IsPlace(inodes, u) && Ptr(inodes, blocks, u) == 0
      requires u.Slot? ==> inodes[u.ino].indirect != 0
      modifies this
      ensures Wf() && Pool() == old(Pool())
      ensures r == None <==> old(Stack()) == []
      ensures r == None ==> Stack() == [] && inodes == old(inodes) && blocks == old(blocks)
      ensures r.Some? ==> |Stack()| == |old(Stack())| - 1 && r.value != 0
      ensures SameBytes(old(inodes), old(blocks), inodes, blocks)
      ensures r.Some? ==> SamePtrBut(old(inodes), old(blocks), inodes, blocks, u, r.value)
    {
      hide Ptr, IsPlace, FileByte, Entry, ChainStack, IsChain;
      ghost var inodes0, blocks0, owner0, stack0, pool0 := inodes, blocks, owner, Stack(), Pool();
      r := AllocBlock();
      if r == None {
        return;
      }
      var b := r.value;
      assert stack0[|Stack()|] == b && b in stack0;
      StackPrefix(Stack(), b, stack0);
      ghost var stack1, blocks1 := Stack(), blocks;
      PlaceParts(inodes, u);
      IndirectOwned(inodes, blocks, owner, u.ino);
      blocks := blocks[b := ZeroBlock()];
      match u {
        case Direct(i, k) => inodes := inodes[i := inodes[i].(direct := inodes[i].direct[k := b])];
        case Indirect(i) => inodes := inodes[i := inodes[i].(indirect := b)];
        case Slot(i, k) => blocks := PutEntry(blocks, inodes[i].indirect, k, b);
      }
      owner := owner[b := u];
      LinkStep(inodes0, blocks0, owner0, u, b, inodes, blocks);
      ChainKept(blocks1, owner0, b);
      assert Stack() == stack1;
      PoolPop(stack1, b, stack0, owner0);
    }

    lemma PlaceParts(inodes: seq<Inode>, u: Use)
      requires InodesOk(inodes) && IsPlace(inodes, u)
      ensures u.ino < |inodes| && inodes[u.ino].IsFile() && (u.Direct? ==> u.k < NDIRECT == |inodes[u.ino].direct|) && (u.Slot? ==> u.k < NSLOTS)
    {
    }

    // The chain is untouched when only blocks in use, and one that is not free, have changed.
    lemma ChainKept(blocks1: Blocks, owner1: map<nat, Use>, b: nat)
      requires BlocksOk(blocks1) && BlocksOk(blocks) && |blocks| == |blocks1| && IsChain(blocks1, lastFree, nodes)
      requires forall i :: 0 <= i < |nodes| ==> nodes[i] < |blocks1|
      requires forall n :: n in ChainStack(blocks1, nodes) ==> n !in owner1 && n != b
      requires forall c :: 0 <= c < |blocks1| && c !in owner1 && c != b ==> blocks[c] == blocks1[c]
      ensures IsChain(blocks, lastFree, nodes) && ChainStack(blocks, nodes) == ChainStack(blocks1, nodes)
    {
      ChainNodesInStack(blocks1, nodes);
      ChainFrame(blocks1, blocks, lastFree, nodes);
    }

    lemma PoolPop(s: seq<nat>, b: nat, s0: seq<nat>, owner0: map<nat, Use>)
      requires s + [b] == s0 && owner.Keys == owner0.Keys + {b}
      ensures Elements(s) + owner.Keys == Elements(s0) + owner0.Keys
    {
      assert forall x :: x in s0 <==> x in s || x == b;
    }

    // The part of Inode.write that finds, or allocates, the k-th block of the file.
    method BlockForWrite(ino: nat, k: nat) returns (r: Option<nat>)
      requires Wf() && IsFile(ino) && k < MAX_BLOCKS
      modifies this
      ensures Wf() && Pool() == old(Pool()) && IsFile(ino)
      ensures SameBytes(old(inodes), old(blocks), inodes, blocks)
      ensures SamePtrBut2(old(inodes), old(blocks), inodes, blocks, PlaceOf(ino, k), Indirect(ino))
      ensures r == None <==> |old(Stack())| < old(Needs(inodes, blocks, ino, k))
      ensures r == None ==> Stack() == []
      ensures r.Some? ==> r.value == BlockPtr(ino, k) != 0 && |Stack()| == |old(Stack())| - old(Needs(inodes, blocks, ino, k))
      ensures k >= NDIRECT && r.Some? ==> inodes[ino].indirect != 0
      ensures k < NDIRECT || old(inodes[ino].indirect) != 0 ==> inodes[ino].indirect == old(inodes[ino].indirect)
    {
      hide FileByte, Entry, ChainStack, IsChain, Owned, SameBytes;
      ghost var inodes0, blocks0 := inodes, blocks;
      var u := PlaceOf(ino, k);
      var blockno;
      SameBytesRefl(inodes, blocks);
      IndirectOwned'(ino);
      if k < NDIRECT {
        blockno := inodes[ino].direct[k];
      } else {
        if inodes[ino].indirect == 0 {
          var a := LinkNew(Indirect(ino));
          if a == None {
            return None;
          }
          blockno := 0;
        } else {
          blockno := Entry(blocks[inodes[ino].indirect], k - NDIRECT);
        }
      }
      assert blockno == Ptr(inodes, blocks, u);
      ghost var inodes1, blocks1 := inodes, blocks;
      if blockno == 0 {
        r := LinkNew(u);
        SameBytesTrans(inodes0, blocks0, inodes1, blocks1, inodes, blocks);
      } else {
        r := Some(blockno);
      }
    }

    lemma IndirectOwned'(ino: nat)
      requires Wf() && IsFile(ino)
      ensures inodes[ino].indirect != 0 ==> inodes[ino].indirect < |blocks|
      ensures IsPlace(inodes, Indirect(ino)) && Ptr(inodes, blocks, Indirect(ino)) == inodes[ino].indirect
      ensures |inodes[ino].direct| == NDIRECT
    {
      IndirectOwned(inodes, blocks, owner, ino);
      assert IsPlace(inodes, Direct(ino, 0));
    }

    // Writes into block b, the k-th block of a file.
    method PutBytes(ino: nat, k: nat, b: nat, off: nat, piece: seq<byte>)
      requires Wf() && IsFile(ino) && k < MAX_BLOCKS && b == BlockPtr(ino, k) != 0 && off + |piece| <= BLOCK_SIZE
      modifies this`blocks
      ensures Wf() && Stack() == old(Stack()) && |blocks| == old(|blocks|)
      ensures forall v :: IsPlace(inodes, v) ==> Ptr(inodes, blocks, v) == old(Ptr(inodes, blocks, v))
      ensures forall i: nat, pos: nat :: IsByte(inodes, i, pos) ==>
        FileByte(inodes, blocks, i, pos)
          == if i == ino && k * BLOCK_SIZE + off <= pos < k * BLOCK_SIZE + off + |piece|
             then piece[pos - (k * BLOCK_SIZE + off)] else old(FileByte(inodes, blocks, i, pos))
    {
      hide Ptr, IsPlace, Entry, ChainStack, IsChain;
      ghost var blocks0 := blocks;
      ghost var u := PlaceOf(ino, k);
      PlaceOfBlock(inodes, ino, k);
      assert b == Ptr(inodes, blocks, u);
      assert b in owner && owner[b] == u;
      var c := Overlay(blocks[b], off, piece);
      WriteStep(inodes, blocks, owner, u, c);
      blocks := blocks[b := c];
      ChainKept(blocks0, owner, b);
      forall i: nat, pos: nat | IsByte(inodes, i, pos)
        ensures FileByte(inodes, blocks, i, pos)
          == if i == ino && k * BLOCK_SIZE + off <= pos < k * BLOCK_SIZE + off + |piece|
             then piece[pos - (k * BLOCK_SIZE + off)] else FileByte(inodes, blocks0, i, pos)
      {
        PlaceOfByte(inodes, i, pos);
        SamePlace(i, pos, ino, k);
        if PlaceAt(i, pos) == u {
          assert FileByte(inodes, blocks0, i, pos) == blocks0[b][pos % BLOCK_SIZE];
        }
      }
    }

    // ---------------------------------------------------------------------------------------------
    // Writing

    // One round of Inode.write: the piece of the data that falls in block k.
    method WriteBlock(ino: nat, k: nat, off: nat, piece: seq<byte>) returns (ok: bool)
      requires Wf() && IsFile(ino) && k < MAX_BLOCKS && off + |piece| <= BLOCK_SIZE
      modifies this
      ensures Wf() && Pool() == old(Pool()) && IsFile(ino) && SameShape(old(inodes), inodes)
      ensures ok <==> |old(Stack())| >= old(Needs(inodes, blocks, ino, k))
      ensures ok ==> |Stack()| == |old(Stack())| - old(Needs(inodes, blocks, ino, k))
      ensures !ok ==> Stack() == []
      ensures PtrsKept(old(inodes), old(blocks), inodes, blocks, ino, k, k + 1)
      ensures BytesWritten(old(inodes), old(blocks), inodes, blocks, ino, k * BLOCK_SIZE + off, if ok then piece else [])
      ensures k < NDIRECT ==> inodes[ino].indirect == old(inodes[ino].indirect)
      ensures k >= NDIRECT && ok ==> inodes[ino].indirect != 0
    {
      hide Ptr, IsPlace, FileByte, Entry, ChainStack, IsChain, Owned;
      ghost var inodes0, blocks0 := inodes, blocks;
      var r := BlockForWrite(ino, k);
      ghost var inodes1, blocks1 := inodes, blocks;
      KeptTwo(inodes0, blocks0, inodes1, blocks1, ino, k);
      if r == None {
        ok := false;
      } else {
        PutBytes(ino, k, r.value, off, piece);
        ok := true;
        assert PtrsKept(inodes0, blocks0, inodes, blocks, ino, k, k + 1);
      }
    }

    // The loop of Inode.write. It fills blocks lo to hi - 1 of the file in turn; when there is no block to be had
    // the first done bytes are written, in the blocks before upto.
    method WriteLoop(ino: nat, offset: nat, data: seq<byte>) returns (ok: bool, ghost done: nat, ghost upto: nat)
      requires Wf() && IsFile(ino) && offset + |data| <= MAX_SIZE
      modifies this
      ensures Wf() && Pool() == old(Pool()) && IsFile(ino) && SameShape(old(inodes), inodes)
      ensures ok <==> |old(Stack())| >= old(Required(inodes, blocks, ino, offset, |data|))
      ensures ok ==> |Stack()| == |old(Stack())| - old(Required(inodes, blocks, ino, offset, |data|))
      ensures if ok then done == |data| && upto == BlocksEnd(offset, |data|) else done < |data| && Stack() == []
      ensures PtrsKept(old(inodes), old(blocks), inodes, blocks, ino, offset / BLOCK_SIZE, upto)
      ensures BytesWritten(old(inodes), old(blocks), inodes, blocks, ino, offset, data[..done])
    {
      hide Ptr, IsPlace, FileByte, Entry, ChainStack, IsChain, Owned, Tidy, BytesWritten, PtrsKept, Holes, Needs, AllDifferent,
        Elements, RequiredFor, WriteSpec, Capped, BlocksEnd, Pack;
      var pos, remaining := offset, |data|;
      ghost var inodes0, blocks0, stack0 := inodes, blocks, Stack();
      ghost var lo, hi := offset / BLOCK_SIZE, BlocksEnd(offset, |data|);
      upto := lo;
      NothingWritten(inodes, blocks, ino, offset, lo);
      FirstBlock(offset, |data|);
      assert data[..0] == [];
      while remaining > 0
        invariant Wf() && Pool() == old(Pool()) && IsFile(ino) && SameShape(inodes0, inodes)
        invariant 0 <= remaining <= |data| && pos + remaining == offset + |data|
        invariant lo <= upto <= hi <= MAX_BLOCKS
        invariant remaining > 0 ==> pos / BLOCK_SIZE == upto < hi
        invariant remaining == 0 ==> upto == hi
        invariant PtrsKept(inodes0, blocks0, inodes, blocks, ino, lo, upto)
        invariant BytesWritten(inodes0, blocks0, inodes, blocks, ino, offset, data[..pos - offset])
        invariant |Stack()| + RequiredFor(inodes0, blocks0, ino, lo, hi)
               == |stack0| + RequiredFor(inodes, blocks, ino, upto, hi)
        decreases remaining
      {
        ghost var inodes1, blocks1 := inodes, blocks;
        var blockloc, blockoff := pos / BLOCK_SIZE, pos % BLOCK_SIZE;
        var amount := if BLOCK_SIZE - blockoff < remaining then BLOCK_SIZE - blockoff else remaining;
        var piece := data[|data| - remaining..|data| - remaining + amount];
        done := pos - offset;
        ok := WriteBlock(ino, blockloc, blockoff, piece);
        assert blockloc * BLOCK_SIZE + blockoff == pos;
        KeptJoin(inodes0, blocks0, inodes1, blocks1, inodes, blocks, ino, lo, upto);
        BytesJoin(inodes0, blocks0, inodes1, blocks1, inodes, blocks, ino, offset, data[..done], if ok then piece else []);
        if !ok {
          NeedsRequired(inodes1, blocks1, ino, upto, hi);
          assert data[..done] + [] == data[..done];
          upto := upto + 1;
          return;
        }
        RequiredStep(inodes1, blocks1, inodes, blocks, ino, upto, hi);
        assert data[..done] + piece == data[..done + amount];
        remaining := remaining - amount;
        pos := pos + amount;
        upto := upto + 1;
        NextBlock(pos, amount, remaining, offset, |data|);
      }
      ok, done := true, |data|;
      NoneRequired(inodes, blocks, ino, hi);
    }

    /** Inode.write. */
    method WriteFile(ino: nat, offset: nat, data: seq<byte>) returns (r: Outcome<Error>)
      requires Wf() && ino < |inodes|
      modifies this
      ensures Wf() && Pool() == old(Pool()) && |inodes| == old(|inodes|)
      ensures forall i :: IsFile(i) <==> old(IsFile(i))
      ensures r == Fail(WrongType) <==> !old(IsFile(ino))
      ensures r == Fail(TooLarge) <==> old(IsFile(ino)) && offset + |data| > MAX_SIZE
      ensures r in {Fail(WrongType), Fail(TooLarge)} ==> inodes == old(inodes) && blocks == old(blocks) && Stack() == old(Stack())
      ensures old(IsFile(ino)) && offset + |data| <= MAX_SIZE ==>
        (r == Pass <==> |old(Stack())| >= old(Required(inodes, blocks, ino, offset, |data|)))
        && (r == Pass || r == Fail(OutOfSpace))
      ensures r == Pass ==> |Stack()| == |old(Stack())| - old(Required(inodes, blocks, ino, offset, |data|))
      ensures r == Pass ==> BytesWritten(old(inodes), old(blocks), inodes, blocks, ino, offset, data)
      ensures r == Pass ==>
        inodes[ino].size == if offset + |data| > old(inodes[ino].size) then offset + |data| else old(inodes[ino].size)
      ensures r == Pass && old(Tidy(inodes, blocks, ino)) ==>
        IsFile(ino) && Tidy(inodes, blocks, ino) && Contents(ino) == WriteSpec(old(Contents(ino)), offset, data)
      ensures r == Fail(OutOfSpace) ==> Stack() == [] && inodes[ino].size == old(inodes[ino].size)
      ensures r == Fail(OutOfSpace) ==>
        exists n :: 0 <= n < |data| && BytesWritten(old(inodes), old(blocks), inodes, blocks, ino, offset, data[..n])
      ensures forall j :: j != ino && IsFile(j) ==>
        Contents(j) == old(Contents(j)) && (Tidy(inodes, blocks, j) <==> old(Tidy(inodes, blocks, j)))
    {
      hide Ptr, IsPlace, FileByte, Entry, ChainStack, IsChain, Owned, Tidy, BytesWritten, PtrsKept, RequiredFor, WriteSpec, Capped,
        BlocksEnd;
      if !inodes[ino].IsFile() {
        return Fail(WrongType);
      }
      if offset + |data| > MAX_SIZE {
        return Fail(TooLarge);
      }
      ghost var inodes0, blocks0 := inodes, blocks;
      ghost var done, upto;
      var ok;
      ok, done, upto := WriteLoop(ino, offset, data);
      if !ok {
        OthersKept(inodes0, blocks0, inodes, blocks, ino, offset, data[..done], offset / BLOCK_SIZE, upto);
        return Fail(OutOfSpace);
      }
      assert data[..|data|] == data;
      SetSize(ino, offset, data, inodes0, blocks0);
      if Tidy(inodes0, blocks0, ino) {
        WrittenContents(inodes0, blocks0, inodes, blocks, ino, offset, data, offset / BLOCK_SIZE, upto);
      }
      return Pass;
    }

    // The end of Inode.write: the size covers what was written.
    method SetSize(ino: nat, offset: nat, data: seq<byte>, ghost inodes0: seq<Inode>, ghost blocks0: Blocks)
      requires Wf() && IsFile(ino) && BlocksOk(blocks0) && InodesOk(inodes0) && SameShape(inodes0, inodes)
      requires BytesWritten(inodes0, blocks0, inodes, blocks, ino, offset, data)
      requires PtrsKept(inodes0, blocks0, inodes, blocks, ino, offset / BLOCK_SIZE, BlocksEnd(offset, |data|))
      modifies this`inodes
      ensures Wf() && IsFile(ino) && SameButSize(inodes0, inodes, ino)
      ensures inodes[ino].size == if offset + |data| > inodes0[ino].size then offset + |data| else inodes0[ino].size
      ensures BytesWritten(inodes0, blocks0, inodes, blocks, ino, offset, data)
      ensures PtrsKept(inodes0, blocks0, inodes, blocks, ino, offset / BLOCK_SIZE, BlocksEnd(offset, |data|))
      ensures forall j: nat :: j < |inodes0| && j != ino && inodes0[j].IsFile() ==>
        ContentsOf(inodes, blocks, j) == ContentsOf(inodes0, blocks0, j)
        && (Tidy(inodes, blocks, j) <==> Tidy(inodes0, blocks0, j))
    {
      hide Ptr, IsPlace, FileByte, ChainStack, IsChain, Owned, Tidy, BytesWritten, PtrsKept, Capped, BlocksEnd, AllDifferent;
      ghost var inodes2 := inodes;
      if offset + |data| > inodes[ino].size {
        inodes := inodes[ino := inodes[ino].(size := offset + |data|)];
        Resized(inodes2, blocks, owner, ino, offset + |data|);
        JoinResized(inodes0, blocks0, inodes2, blocks, inodes, ino, offset, data, offset / BLOCK_SIZE, BlocksEnd(offset, |data|));
      }
      OthersKept(inodes0, blocks0, inodes, blocks, ino, offset, data, offset / BLOCK_SIZE, BlocksEnd(offset, |data|));
    }

    // ---------------------------------------------------------------------------------------------
    // New files, and runs of writes

    /** What Inode.create makes of an inode from the list of free ones: an empty file. */
    method InitFile(ino: nat)
      requires Wf() && ino < |inodes| && inodes[ino].kind == Free
      modifies this`inodes
      ensures Wf() && Pool() == old(Pool()) && Stack() == old(Stack()) && |inodes| == old(|inodes|)
      ensures IsFile(ino) && Tidy(inodes, blocks, ino) && Contents(ino) == []
      ensures forall j :: j != ino ==> (IsFile(j) <==> old(IsFile(j)))
      ensures forall j :: j != ino && IsFile(j) ==>
        Contents(j) == old(Contents(j)) && (Tidy(inodes, blocks, j) <==> old(Tidy(inodes, blocks, j)))
    {
      hide ChainStack, IsChain, AllDifferent, Elements, Capped;
      ghost var inodes0 := inodes;
      inodes := inodes[ino := Inode(Data, 0, seq(NDIRECT, _ => 0), 0)];
      NewFileTidy(inodes, blocks, ino);
      NewFileOwned(inodes0, inodes, blocks, owner, ino);
      forall j: nat | j < |inodes| && j != ino && inodes[j].IsFile()
        ensures ContentsOf(inodes, blocks, j) == ContentsOf(inodes0, blocks, j)
        ensures Tidy(inodes, blocks, j) <==> Tidy(inodes0, blocks, j)
      {
        SameInode(inodes0, inodes, blocks, j);
      }
    }

    /** A run of writes to a file without rests of earlier contents, a new one for instance, refines the same
        run on a byte string. It ends early only when no block is free, or a write goes beyond the
        greatest size. */
    method WriteRun(ino: nat, writes: seq<Write>) returns (ok: bool)
      requires Wf() && IsFile(ino) && Tidy(inodes, blocks, ino)
      modifies this
      ensures Wf() && Pool() == old(Pool())
      ensures forall i :: IsFile(i) <==> old(IsFile(i))
      ensures ok ==> IsFile(ino) && Tidy(inodes, blocks, ino) && Contents(ino) == WritesSpec(old(Contents(ino)), writes)
      ensures !ok ==> Stack() == [] || exists w :: w in writes && w.offset + |w.data| > MAX_SIZE
      ensures forall j :: j != ino && IsFile(j) ==>
        Contents(j) == old(Contents(j)) && (Tidy(inodes, blocks, j) <==> old(Tidy(inodes, blocks, j)))
      decreases |writes|
    {
      hide Wf, Pool, Tidy, WriteSpec, Required, BytesWritten, BlocksOk, InodesOk;
      if writes == [] {
        return true;
      }
      var w := writes[|writes| - 1];
      ok := WriteRun(ino, writes[..|writes| - 1]);
      if ok {
        assert w in writes;
        var r := WriteFile(ino, w.offset, w.data);
        ok := r == Pass;
      }
    }

    /** A file from its creation through any run of writes. */
    method CreateAndWrite(ino: nat, writes: seq<Write>) returns (ok: bool)
      requires Wf() && ino < |inodes| && inodes[ino].kind == Free
      modifies this
      ensures Wf() && Pool() == old(Pool())
      ensures ok ==> IsFile(ino) && Contents(ino) == WritesSpec([], writes)
      ensures !ok ==> Stack() == [] || exists w :: w in writes && w.offset + |w.data| > MAX_SIZE
      ensures forall j :: j != ino && IsFile(j) ==> old(IsFile(j)) && Contents(j) == old(Contents(j))
    {
      hide Wf, Pool, Tidy, WritesSpec, BlocksOk, InodesOk;
      InitFile(ino);
      ok := WriteRun(ino, writes);
    }

    // ---------------------------------------------------------------------------------------------
    // Reading

    // The bytes from one block, or zeros where there is none.
    method ReadPiece(ino: nat, pos: nat, amount: nat) returns (piece: seq<byte>)
      requires Wf() && IsFile(ino) && 0 < amount && pos % BLOCK_SIZE + amount <= BLOCK_SIZE && pos + amount <= MAX_SIZE
      ensures |piece| == amount && forall j :: 0 <= j < amount ==> piece[j] == FileByte(inodes, blocks, ino, pos + j)
    {
      hide Ptr, IsPlace, FileByte, Entry, ChainStack, IsChain, AllDifferent, Elements, Pack;
      var blockloc, blockoff := pos / BLOCK_SIZE, pos % BLOCK_SIZE;
      IndirectOwned'(ino);
      var blockno;
      if blockloc < NDIRECT {
        blockno := inodes[ino].direct[blockloc];
      } else if inodes[ino].indirect == 0 {
        blockno := 0;
      } else {
        blockno := Entry(blocks[inodes[ino].indirect], blockloc - NDIRECT);
      }
      PtrParts(inodes, blocks, owner, ino, blockloc);
      if blockno == 0 {
        piece := seq(amount, _ => 0);
      } else {
        piece := blocks[blockno][blockoff..blockoff + amount];
      }
      PieceOfFile(inodes, blocks, ino, pos, amount, piece);
    }

    /** Inode.read: as many bytes as are wanted, by default all, from the offset on, but none from beyond the
        end of the file or the greatest size. */
    method ReadFile(ino: nat, offset: nat, wanted: Option<int>) returns (r: Result<seq<byte>, Error>)
      requires Wf() && ino < |inodes|
      ensures r == Failure(WrongType) <==> !IsFile(ino)
      ensures r.Failure? ==> r.error == WrongType
      ensures IsFile(ino) ==>
        var left := (if inodes[ino].size < MAX_SIZE then inodes[ino].size else MAX_SIZE) - offset;
        var most := if wanted.Some? && wanted.value < left then wanted.value else left;
        r.Success? && |r.value| == if most > 0 then most else 0
      ensures IsFile(ino) ==>
        forall k :: 0 <= k < |r.value| ==> offset + k < |Contents(ino)| && r.value[k] == Contents(ino)[offset + k]
    {
      hide Ptr, IsPlace, FileByte, Entry, ChainStack, IsChain, AllDifferent, Elements, Pack;
      if !inodes[ino].IsFile() {
        return Failure(WrongType);
      }
      ghost var c := Contents(ino);
      var size: int := if wanted == None then inodes[ino].size else wanted.value;
      var limit := (if inodes[ino].size < MAX_SIZE then inodes[ino].size else MAX_SIZE) - offset;
      size := if limit < size then limit else size;
      var pos, res := offset, [];
      ghost var total := size;
      while size > 0
        invariant pos == offset + |res| && |res| + size == total
        invariant size >= 0 || res == []
        invariant forall k :: 0 <= k < |res| ==> offset + k < |c| && res[k] == c[offset + k]
        decreases size
      {
        var blockoff := pos % BLOCK_SIZE;
        var amount := if BLOCK_SIZE - blockoff < size then BLOCK_SIZE - blockoff else size;
        var piece := ReadPiece(ino, pos, amount);
        res := res + piece;
        pos := pos + amount;
        size := size - amount;
      }
      r := Success(res);
    }

    /** What is written is read back. */
    method WriteThenRead(ino: nat, offset: nat, data: seq<byte>) returns (w: Outcome<Error>, r: Result<seq<byte>, Error>)
      requires Wf() && ino < |inodes|
      modifies this
      ensures Wf() && Pool() == old(Pool())
      ensures w == Pass ==> r == Success(data)
    {
      hide Pool, Tidy, WriteSpec, Required, FileByte, BytesWritten, ChainStack, IsChain, Owned, AllDifferent;
      w := WriteFile(ino, offset, data);
      r := ReadFile(ino, offset, Some(|data|));
      if w == Pass {
        BytesThere(old(inodes), old(blocks), inodes, blocks, ino, offset, data);
        assert r.value == data;
      }
    }

    // ---------------------------------------------------------------------------------------------
    // Emptying

    // Frees the block a place refers to, and clears the place.
    method UnlinkFree(u: Use)
      requires Wf() && IsPlace(inodes, u) && Ptr(inodes, blocks, u) != 0
      requires u.Indirect? ==> NoSlots(inodes, blocks, u.ino)
      modifies this
      ensures Wf() && Pool() == old(Pool()) && |Stack()| == |old(Stack())| + 1
      ensures SameShape(old(inodes), inodes) && SamePtrBut(old(inodes), old(blocks), inodes, blocks, u, 0)
      ensures BytesCleared(old(inodes), old(blocks), inodes, blocks, u)
    {
      hide Ptr, IsPlace, FileByte, Entry, ChainStack, IsChain, NoSlots, Pack, AllDifferent, Owned, Elements, PutEntry;
      ghost var inodes0, blocks0, owner0, stack0 := inodes, blocks, owner, Stack();
      var b := PtrAt(u);
      FreeBlock(b);
      ghost var stack1, blocks1 := Stack(), blocks;
      PlaceParts(inodes, u);
      IndirectOwned(inodes, blocks0, owner, u.ino);
      match u {
        case Direct(i, k) => inodes := inodes[i := inodes[i].(direct := inodes[i].direct[k := 0])];
        case Indirect(i) => inodes := inodes[i := inodes[i].(indirect := 0)];
        case Slot(i, k) => blocks := PutEntry(blocks, inodes[i].indirect, k, 0);
      }
      owner := owner - {b};
      UnlinkStep(inodes0, blocks0, owner0, u, blocks1[b], inodes, blocks);
      UnlinkUntouched(inodes0, blocks0, owner0, u, blocks1[b]);
      InPushed(stack0, b, stack1, ChainStack(blocks1, nodes), freeBlock[..nfree]);
      ChainKept(blocks1, owner, |blocks|);
      assert Stack() == stack1;
      assert owner0.Keys == owner.Keys + {b};
      PoolPush(stack0, b, stack1, owner0);
    }

    lemma InPushed(s0: seq<nat>, b: nat, s: seq<nat>, chain: seq<nat>, rest: seq<nat>)
      requires s == s0 + [b] == chain + rest
      ensures forall n :: n in s <==> n in s0 || n == b
      ensures forall n :: n in chain ==> n in s
    {
    }

    // The block number at a place that is in use.
    method PtrAt(u: Use) returns (b: nat)
      requires Wf() && IsPlace(inodes, u) && Ptr(inodes, blocks, u) != 0
      ensures b == Ptr(inodes, blocks, u) && 0 < b < |blocks| && b in owner && owner[b] == u && b !in Stack()
      ensures u.Slot? ==> 0 < inodes[u.ino].indirect < |blocks|
    {
      hide Entry, ChainStack, IsChain;
      IndirectOwned(inodes, blocks, owner, u.ino);
      match u {
        case Direct(i, k) => b := inodes[i].direct[k];
        case Indirect(i) => b := inodes[i].indirect;
        case Slot(i, k) => b := Entry(blocks[inodes[i].indirect], k);
      }
      assert b == Ptr(inodes, blocks, u);
    }

    lemma PoolPush(s0: seq<nat>, b: nat, s: seq<nat>, owner0: map<nat, Use>)
      requires s == s0 + [b] && owner0.Keys == owner.Keys + {b}
      ensures Elements(s) + owner.Keys == Elements(s0) + owner0.Keys
    {
      assert forall x :: x in s <==> x in s0 || x == b;
    }

    /** Inode.truncate to size 0. For a file of the greatest size with an indirect block, the first
        round reads past the end of that block, which raises an exception. */
    method Truncate(ino: nat) returns (r: Outcome<Error>)
      requires Wf() && IsFile(ino) && Tidy(inodes, blocks, ino)
      modifies this
      ensures Wf() && Pool() == old(Pool()) && |inodes| == old(|inodes|)
      ensures forall i :: IsFile(i) <==> old(IsFile(i))
      ensures r == Pass || r == Fail(BadRead)
      ensures r == Fail(BadRead) <==> old(inodes[ino].size) == MAX_SIZE && old(inodes[ino].indirect) != 0
      ensures r == Fail(BadRead) ==> inodes == old(inodes) && blocks == old(blocks) && Stack() == old(Stack())
      ensures r == Pass ==> Contents(ino) == [] && Tidy(inodes, blocks, ino)
      ensures r == Pass ==> forall k: nat :: k < MAX_BLOCKS ==> BlockPtr(ino, k) == 0
      ensures r == Pass ==>
        inodes[ino].indirect == if old(inodes[ino].size) >= NDIRECT * BLOCK_SIZE && old(BlockPtr(ino, NDIRECT)) != 0
                                then 0 else old(inodes[ino].indirect)
      ensures r == Pass && old(HoleFree(inodes, blocks, ino)) ==> inodes[ino].indirect == 0
      ensures forall j :: j != ino && IsFile(j) ==>
        Contents(j) == old(Contents(j)) && (Tidy(inodes, blocks, j) <==> old(Tidy(inodes, blocks, j)))
    {
      hide Ptr, IsPlace, FileByte, Entry, ChainStack, IsChain, Owned, AllDifferent, Elements, Tidy, BytesWritten,
        PtrsKept, SamePtrBut, BytesCleared, Emptying;
      ghost var inodes0, blocks0 := inodes, blocks;
      var top := inodes[ino].size / BLOCK_SIZE;
      var curr: int := top;
      ghost var first := BlockPtr(ino, NDIRECT);
      StartEmptying(inodes, blocks, ino);
      while curr > -1
        invariant Wf() && Pool() == old(Pool()) && IsFile(ino) && SameShape(inodes0, inodes)
        invariant -1 <= curr <= top
        invariant curr == top ==> inodes == inodes0 && blocks == blocks0 && Stack() == old(Stack())
        invariant curr < top ==> !(inodes0[ino].size == MAX_SIZE && inodes0[ino].indirect != 0)
        invariant Emptying(inodes0, blocks0, inodes, blocks, ino, curr)
        invariant inodes[ino].indirect == if curr < NDIRECT <= top && first != 0 then 0 else inodes0[ino].indirect
      {
        ghost var inodes1, blocks1 := inodes, blocks;
        IndirectOwned'(ino);
        var blockno;
        if curr < NDIRECT {
          blockno := inodes[ino].direct[curr];
        } else if inodes[ino].indirect == 0 {
          blockno := 0;
        } else if curr >= MAX_BLOCKS {
          TidySize(inodes0, blocks0, ino);
          return Fail(BadRead);
        } else {
          blockno := Entry(blocks[inodes[ino].indirect], curr - NDIRECT);
        }
        if curr < MAX_BLOCKS {
          PtrParts(inodes, blocks, owner, ino, curr);
          PtrNow(inodes0, blocks0, inodes, blocks, ino, curr);
        }
        if blockno > 0 {
          UnlinkFree(PlaceOf(ino, curr));
          ClearedOne(inodes0, blocks0, inodes1, blocks1, inodes, blocks, ino, curr);
          if curr == NDIRECT {
            ghost var inodes2, blocks2 := inodes, blocks;
            NoSlotsLeft(inodes0, blocks0, inodes, blocks, ino);
            IndirectOwned'(ino);
            UnlinkFree(Indirect(ino));
            ClearedIndirect(inodes0, blocks0, inodes2, blocks2, inodes, blocks, ino, curr - 1);
            IndirectOwned'(ino);
          }
        } else {
          ClearedHole(inodes0, blocks0, inodes, blocks, ino, curr);
        }
        curr := curr - 1;
      }
      EmptyNow(inodes0, blocks0, inodes, blocks, ino);
      ghost var inodes1 := inodes;
      inodes := inodes[ino := inodes[ino].(size := 0)];
      Resized(inodes1, blocks, owner, ino, 0);
      JoinResized(inodes0, blocks0, inodes1, blocks, inodes, ino, 0, Zeros(), 0, MAX_BLOCKS);
      OthersKept(inodes0, blocks0, inodes, blocks, ino, 0, Zeros(), 0, MAX_BLOCKS);
      EmptyTidy(inodes0, blocks0, inodes, blocks, ino);
      return Pass;
    }

    // The bytes of a file, up to its size.
    ghost function Contents(ino: nat): (s: seq<byte>)
      requires BlocksOk(blocks) && InodesOk(inodes) && IsFile(ino)
      reads this
    {
      ContentsOf(inodes, blocks, ino)
    }
  }

  // ---------------------------------------------------------------------------------------------
  // What a write means

  ghost function ContentsOf(inodes: seq<Inode>, blocks: Blocks, ino: nat): (s: seq<byte>)
    requires BlocksOk(blocks) && InodesOk(inodes) && ino < |inodes| && inodes[ino].IsFile()
    ensures |s| == Capped(inodes[ino].size)
    ensures forall pos :: 0 <= pos < |s| ==> s[pos] == FileByte(inodes, blocks, ino, pos)
  {
    seq(Capped(inodes[ino].size), pos requires 0 <= pos < MAX_SIZE => FileByte(inodes, blocks, ino, pos))
  }

  function Capped(size: nat): nat {
    if size < MAX_SIZE then size else MAX_SIZE
  }

  // A write to a byte string: it grows by zeros to hold the data, then the data replaces what was there.
  function WriteSpec(old_: seq<byte>, offset: nat, data: seq<byte>): (s: seq<byte>)
    ensures |s| == if |old_| < offset + |data| then offset + |data| else |old_|
    ensures forall pos :: 0 <= pos < |s| ==>
      s[pos] == if offset <= pos < offset + |data| then data[pos - offset] else if pos < |old_| then old_[pos] else 0
  {
    Overlay(if |old_| < offset + |data| then old_ + seq(offset + |data| - |old_|, _ => 0) else old_, offset, data)
  }

  datatype Write = Write(offset: nat, data: seq<byte>)

  // A run of writes to a byte string.
  function WritesSpec(c: seq<byte>, writes: seq<Write>): seq<byte> {
    if writes == [] then c
    else
      var w := writes[|writes| - 1];
      WriteSpec(WritesSpec(c, writes[..|writes| - 1]), w.offset, w.data)
  }

  /** The last write that covers a byte decides it. */
  lemma {:induction false} LastWriteWins(c: seq<byte>, writes: seq<Write>, pos: nat, i: nat)
    requires i < |writes| && Covers(writes[i], pos) && forall j :: i < j < |writes| ==> !Covers(writes[j], pos)
    ensures pos < |WritesSpec(c, writes)| && WritesSpec(c, writes)[pos] == writes[i].data[pos - writes[i].offset]
    decreases |writes|
  {
    hide WriteSpec;
    if i < |writes| - 1 {
      var rest := writes[..|writes| - 1];
      assert forall j :: i < j < |rest| ==> !Covers(rest[j], pos);
      LastWriteWins(c, rest, pos, i);
    }
  }

  /** A byte that no write covers is what it was, or zero. */
  lemma {:induction false} Unwritten(c: seq<byte>, writes: seq<Write>, pos: nat)
    requires pos < |WritesSpec(c, writes)| && forall j :: 0 <= j < |writes| ==> !Covers(writes[j], pos)
    ensures WritesSpec(c, writes)[pos] == if pos < |c| then c[pos] else 0
    decreases |writes|
  {
    hide WriteSpec;
    if writes != [] {
      var rest := writes[..|writes| - 1];
      assert forall j :: 0 <= j < |rest| ==> !Covers(rest[j], pos);
      if pos < |WritesSpec(c, rest)| {
        Unwritten(c, rest, pos);
      } else {
        WritesLength(c, rest, pos);
      }
    }
  }

  predicate Covers(w: Write, pos: nat) {
    w.offset <= pos < w.offset + |w.data|
  }

  predicate Reaches(w: Write, pos: nat) {
    pos < w.offset + |w.data|
  }

  /** The string is as long as it was, or as the farthest write needs. */
  lemma {:induction false} WritesLength(c: seq<byte>, writes: seq<Write>, pos: nat)
    ensures pos < |WritesSpec(c, writes)| <==> pos < |c| || exists w :: w in writes && Reaches(w, pos)
    decreases |writes|
  {
    hide WriteSpec, Reaches;
    if writes != [] {
      var rest, w := writes[..|writes| - 1], writes[|writes| - 1];
      assert writes == rest + [w];
      WritesLength(c, rest, pos);
      WriteReaches(WritesSpec(c, rest), w, pos);
    }
  }

  lemma WriteReaches(c: seq<byte>, w: Write, pos: nat)
    ensures pos < |WriteSpec(c, w.offset, w.data)| <==> pos < |c| || Reaches(w, pos)
  {
  }

  // The inode of a new file: no size, and no pointers.
  ghost predicate IsNew(inode: Inode) {
    inode.IsFile() && inode.size == 0 && inode.indirect == 0 && forall k :: 0 <= k < |inode.direct| ==> inode.direct[k] == 0
  }

  /** A new file is empty, and has no rests of earlier contents. */
  lemma NewFileTidy(inodes: seq<Inode>, blocks: Blocks, ino: nat)
    requires BlocksOk(blocks) && InodesOk(inodes) && ino < |inodes| && IsNew(inodes[ino])
    ensures Tidy(inodes, blocks, ino) && ContentsOf(inodes, blocks, ino) == []
  {
    hide Entry;
  }

  // Nobody's pointers change when a free inode becomes a new file.
  lemma NewFileOwned(inodes: seq<Inode>, inodes': seq<Inode>, blocks: Blocks, owner: map<nat, Use>, ino: nat)
    requires BlocksOk(blocks) && InodesOk(inodes) && InodesOk(inodes') && Owned(inodes, blocks, owner)
    requires ino < |inodes| == |inodes'| && !inodes[ino].IsFile() && inodes' == inodes[ino := inodes'[ino]] && IsNew(inodes'[ino])
    ensures Owned(inodes', blocks, owner)
  {
    hide Entry;
    forall u | IsPlace(inodes', u) ensures if u.ino == ino then Ptr(inodes', blocks, u) == 0 else IsPlace(inodes, u) && Ptr(inodes', blocks, u) == Ptr(inodes, blocks, u) {
    }
    forall u | IsPlace(inodes, u) ensures IsPlace(inodes', u) && Ptr(inodes', blocks, u) == Ptr(inodes, blocks, u) {
    }
  }

  // What a file holds is in its inode and in the blocks.
  lemma SameInode(inodes: seq<Inode>, inodes': seq<Inode>, blocks: Blocks, j: nat)
    requires BlocksOk(blocks) && InodesOk(inodes) && InodesOk(inodes')
    requires j < |inodes| == |inodes'| && inodes'[j] == inodes[j] && inodes[j].IsFile()
    ensures ContentsOf(inodes', blocks, j) == ContentsOf(inodes, blocks, j)
    ensures Tidy(inodes', blocks, j) <==> Tidy(inodes, blocks, j)
  {
    hide Ptr;
    forall u: Use | u.ino == j && IsPlace(inodes, u) ensures IsPlace(inodes', u) && Ptr(inodes', blocks, u) == Ptr(inodes, blocks, u) {
      SamePtr(inodes, inodes', blocks, u);
    }
    forall pos: nat | pos < MAX_SIZE ensures FileByte(inodes', blocks, j, pos) == FileByte(inodes, blocks, j, pos) {
    }
  }

  lemma SamePtr(inodes: seq<Inode>, inodes': seq<Inode>, blocks: Blocks, u: Use)
    requires BlocksOk(blocks) && InodesOk(inodes) && InodesOk(inodes') && IsPlace(inodes, u)
    requires |inodes| == |inodes'| && inodes'[u.ino] == inodes[u.ino]
    ensures IsPlace(inodes', u) && Ptr(inodes', blocks, u) == Ptr(inodes, blocks, u)
  {
    hide Entry;
  }

  // Nothing is kept beyond the size of the file.
  ghost predicate Tidy(inodes: seq<Inode>, blocks: Blocks, ino: nat)
    requires BlocksOk(blocks) && InodesOk(inodes) && ino < |inodes| && inodes[ino].IsFile()
  {
    && inodes[ino].size <= MAX_SIZE
    && (forall pos: nat :: inodes[ino].size <= pos < MAX_SIZE ==> FileByte(inodes, blocks, ino, pos) == 0)
    && (forall k: nat :: k < MAX_BLOCKS && inodes[ino].size <= k * BLOCK_SIZE ==> Ptr(inodes, blocks, PlaceOf(ino, k)) == 0)
  }

  // The data is at its offset of the file, and every other byte of every file is as before.
  ghost predicate BytesWritten(inodes: seq<Inode>, blocks: Blocks, inodes': seq<Inode>, blocks': Blocks,
                               ino: nat, offset: nat, data: seq<byte>)
    requires BlocksOk(blocks) && InodesOk(inodes) && BlocksOk(blocks') && InodesOk(inodes')
  {
    forall i: nat, pos: nat :: IsByte(inodes, i, pos) ==>
      IsByte(inodes', i, pos) && FileByte(inodes', blocks', i, pos)
        == if i == ino && offset <= pos < offset + |data| then data[pos - offset] else FileByte(inodes, blocks, i, pos)
  }

  predicate Touched(w: Use, ino: nat, lo: nat, hi: nat) {
    w.ino == ino && match w
      case Direct(_, k) => lo <= k < hi
      case Indirect(_) => true
      case Slot(_, k) => lo <= NDIRECT + k < hi
  }

  // Only pointers to blocks lo to hi - 1 of the file, and to its indirect block, may differ.
  ghost predicate PtrsKept(inodes: seq<Inode>, blocks: Blocks, inodes': seq<Inode>, blocks': Blocks,
                           ino: nat, lo: nat, hi: nat)
    requires BlocksOk(blocks) && InodesOk(inodes) && BlocksOk(blocks') && InodesOk(inodes')
  {
    forall w :: IsPlace(inodes, w) && !Touched(w, ino, lo, hi) ==>
      IsPlace(inodes', w) && Ptr(inodes', blocks', w) == Ptr(inodes, blocks, w)
  }

  lemma BytesThere(i0: seq<Inode>, b0: Blocks, i1: seq<Inode>, b1: Blocks, ino: nat, offset: nat, data: seq<byte>)
    requires BlocksOk(b0) && InodesOk(i0) && BlocksOk(b1) && InodesOk(i1) && BytesWritten(i0, b0, i1, b1, ino, offset, data)
    requires ino < |i0| && i0[ino].IsFile() && ino < |i1| && i1[ino].IsFile()
    requires offset + |data| <= MAX_SIZE && offset + |data| <= i1[ino].size
    ensures forall k :: 0 <= k < |data| ==> ContentsOf(i1, b1, ino)[offset + k] == data[k]
  {
    hide FileByte;
    forall k | 0 <= k < |data| ensures ContentsOf(i1, b1, ino)[offset + k] == data[k] {
      assert IsByte(i0, ino, offset + k);
    }
  }

  lemma KeptTwo(inodes: seq<Inode>, blocks: Blocks, inodes': seq<Inode>, blocks': Blocks, ino: nat, k: nat)
    requires BlocksOk(blocks) && InodesOk(inodes) && BlocksOk(blocks') && InodesOk(inodes')
    requires SamePtrBut2(inodes, blocks, inodes', blocks', PlaceOf(ino, k), Indirect(ino))
    ensures PtrsKept(inodes, blocks, inodes', blocks', ino, k, k + 1)
  {
    hide Ptr, IsPlace;
  }

  // How many blocks must be allocated before block k of the file can be written.
  ghost function Needs(inodes: seq<Inode>, blocks: Blocks, ino: nat, k: nat): nat
    requires BlocksOk(blocks) && InodesOk(inodes) && ino < |inodes| && inodes[ino].IsFile() && k < MAX_BLOCKS
  {
    (if Ptr(inodes, blocks, PlaceOf(ino, k)) == 0 then 1 else 0) + if k >= NDIRECT && inodes[ino].indirect == 0 then 1 else 0
  }

  // The blocks among lo to hi - 1 that the file does not have.
  ghost function Holes(inodes: seq<Inode>, blocks: Blocks, ino: nat, lo: nat, hi: nat): nat
    requires BlocksOk(blocks) && InodesOk(inodes) && ino < |inodes| && inodes[ino].IsFile() && hi <= MAX_BLOCKS
    decreases hi - lo
  {
    if lo >= hi then 0
    else (if Ptr(inodes, blocks, PlaceOf(ino, lo)) == 0 then 1 else 0) + Holes(inodes, blocks, ino, lo + 1, hi)
  }

  ghost function RequiredFor(inodes: seq<Inode>, blocks: Blocks, ino: nat, lo: nat, hi: nat): nat
    requires BlocksOk(blocks) && InodesOk(inodes) && ino < |inodes| && inodes[ino].IsFile() && hi <= MAX_BLOCKS
  {
    Holes(inodes, blocks, ino, lo, hi) + if lo < hi && hi > NDIRECT && inodes[ino].indirect == 0 then 1 else 0
  }

  // One past the last block that len bytes at offset reach.
  function BlocksEnd(offset: nat, len: nat): nat {
    if len == 0 then offset / BLOCK_SIZE else (offset + len - 1) / BLOCK_SIZE + 1
  }

  // The free blocks a write uses up: one for each hole it fills, and one for a missing indirect block.
  ghost function Required(inodes: seq<Inode>, blocks: Blocks, ino: nat, offset: nat, len: nat): nat
    requires BlocksOk(blocks) && InodesOk(inodes) && ino < |inodes| && inodes[ino].IsFile() && offset + len <= MAX_SIZE
  {
    RequiredFor(inodes, blocks, ino, offset / BLOCK_SIZE, BlocksEnd(offset, len))
  }

  lemma NothingWritten(inodes: seq<Inode>, blocks: Blocks, ino: nat, offset: nat, lo: nat)
    requires BlocksOk(blocks) && InodesOk(inodes)
    ensures BytesWritten(inodes, blocks, inodes, blocks, ino, offset, [])
    ensures PtrsKept(inodes, blocks, inodes, blocks, ino, lo, lo)
  {
    hide Ptr, FileByte;
  }

  lemma KeptJoin(i0: seq<Inode>, b0: Blocks, i1: seq<Inode>, b1: Blocks, i2: seq<Inode>, b2: Blocks, ino: nat, lo: nat, k: nat)
    requires BlocksOk(b0) && InodesOk(i0) && BlocksOk(b1) && InodesOk(i1) && BlocksOk(b2) && InodesOk(i2)
    requires lo <= k && PtrsKept(i0, b0, i1, b1, ino, lo, k) && PtrsKept(i1, b1, i2, b2, ino, k, k + 1)
    ensures PtrsKept(i0, b0, i2, b2, ino, lo, k + 1)
  {
    hide Ptr, IsPlace;
  }

  lemma BytesJoin(i0: seq<Inode>, b0: Blocks, i1: seq<Inode>, b1: Blocks, i2: seq<Inode>, b2: Blocks,
                  ino: nat, offset: nat, data: seq<byte>, piece: seq<byte>)
    requires BlocksOk(b0) && InodesOk(i0) && BlocksOk(b1) && InodesOk(i1) && BlocksOk(b2) && InodesOk(i2)
    requires BytesWritten(i0, b0, i1, b1, ino, offset, data) && BytesWritten(i1, b1, i2, b2, ino, offset + |data|, piece)
    ensures BytesWritten(i0, b0, i2, b2, ino, offset, data + piece)
  {
    hide FileByte, IsByte;
  }

  lemma {:induction false} HolesKept(i0: seq<Inode>, b0: Blocks, i1: seq<Inode>, b1: Blocks, ino: nat, k: nat, lo: nat, hi: nat)
    requires BlocksOk(b0) && InodesOk(i0) && BlocksOk(b1) && InodesOk(i1)
    requires ino < |i0| && i0[ino].IsFile() && ino < |i1| && i1[ino].IsFile()
    requires PtrsKept(i0, b0, i1, b1, ino, k, k + 1) && k < lo && hi <= MAX_BLOCKS
    ensures Holes(i0, b0, ino, lo, hi) == Holes(i1, b1, ino, lo, hi)
    decreases hi - lo
  {
    hide Ptr;
    if lo < hi {
      HolesKept(i0, b0, i1, b1, ino, k, lo + 1, hi);
      assert IsPlace(i0, PlaceOf(ino, lo));
    }
  }

  lemma RequiredStep(i0: seq<Inode>, b0: Blocks, i1: seq<Inode>, b1: Blocks, ino: nat, k: nat, hi: nat)
    requires BlocksOk(b0) && InodesOk(i0) && BlocksOk(b1) && InodesOk(i1)
    requires ino < |i0| && i0[ino].IsFile() && ino < |i1| && i1[ino].IsFile()
    requires PtrsKept(i0, b0, i1, b1, ino, k, k + 1) && k < hi <= MAX_BLOCKS
    requires if k < NDIRECT then i1[ino].indirect == i0[ino].indirect else i1[ino].indirect != 0
    ensures RequiredFor(i0, b0, ino, k, hi) == Needs(i0, b0, ino, k) + RequiredFor(i1, b1, ino, k + 1, hi)
  {
    hide Ptr, PtrsKept;
    HolesKept(i0, b0, i1, b1, ino, k, k + 1, hi);
  }

  lemma NeedsRequired(inodes: seq<Inode>, blocks: Blocks, ino: nat, k: nat, hi: nat)
    requires BlocksOk(blocks) && InodesOk(inodes) && ino < |inodes| && inodes[ino].IsFile() && k < hi <= MAX_BLOCKS
    ensures Needs(inodes, blocks, ino, k) <= RequiredFor(inodes, blocks, ino, k, hi)
  {
    hide Ptr;
  }

  lemma NoneRequired(inodes: seq<Inode>, blocks: Blocks, ino: nat, hi: nat)
    requires BlocksOk(blocks) && InodesOk(inodes) && ino < |inodes| && inodes[ino].IsFile() && hi <= MAX_BLOCKS
    ensures RequiredFor(inodes, blocks, ino, hi, hi) == 0
  {
  }

  lemma FirstBlock(offset: nat, len: nat)
    ensures offset / BLOCK_SIZE <= BlocksEnd(offset, len)
    ensures len > 0 ==> offset / BLOCK_SIZE < BlocksEnd(offset, len)
    ensures len == 0 ==> offset / BLOCK_SIZE == BlocksEnd(offset, len)
    ensures offset + len <= MAX_SIZE ==> BlocksEnd(offset, len) <= MAX_BLOCKS
  {
  }

  lemma NextBlock(pos: nat, amount: nat, remaining: nat, offset: nat, len: nat)
    requires pos + remaining == offset + len && 0 < amount <= pos && len > 0
    requires var off := (pos - amount) % BLOCK_SIZE;
      if BLOCK_SIZE - off < remaining + amount then amount == BLOCK_SIZE - off else amount == remaining + amount
    ensures remaining > 0 ==> pos / BLOCK_SIZE == (pos - amount) / BLOCK_SIZE + 1 < BlocksEnd(offset, len)
    ensures remaining == 0 ==> (pos - amount) / BLOCK_SIZE + 1 == BlocksEnd(offset, len)
  {
    var p, q, e := pos / BLOCK_SIZE, (pos - amount) / BLOCK_SIZE, (offset + len - 1) / BLOCK_SIZE;
    assert p * BLOCK_SIZE <= pos <= offset + len;
    assert remaining > 0 ==> e * BLOCK_SIZE + BLOCK_SIZE > p * BLOCK_SIZE;
  }

  // A size can be stored without touching pointers or bytes.
  lemma Resized(inodes: seq<Inode>, blocks: Blocks, owner: map<nat, Use>, ino: nat, size: nat)
    requires BlocksOk(blocks) && InodesOk(inodes) && Owned(inodes, blocks, owner) && ino < |inodes|
    ensures var inodes' := inodes[ino := inodes[ino].(size := size)];
      InodesOk(inodes') && Owned(inodes', blocks, owner)
      && forall u :: IsPlace(inodes, u) ==> IsPlace(inodes', u) && Ptr(inodes', blocks, u) == Ptr(inodes, blocks, u)
  {
    hide Entry;
    var inodes' := inodes[ino := inodes[ino].(size := size)];
    assert forall u :: IsPlace(inodes', u) <==> IsPlace(inodes, u);
    assert forall u :: IsPlace(inodes, u) ==> Ptr(inodes', blocks, u) == Ptr(inodes, blocks, u);
  }

  lemma JoinResized(i0: seq<Inode>, b0: Blocks, i1: seq<Inode>, b1: Blocks, i2: seq<Inode>,
                    ino: nat, offset: nat, data: seq<byte>, lo: nat, hi: nat)
    requires BlocksOk(b0) && InodesOk(i0) && BlocksOk(b1) && InodesOk(i1) && InodesOk(i2) && ino < |i1|
    requires |i2| == |i1| && i2 == i1[ino := i1[ino].(size := i2[ino].size)]
    requires BytesWritten(i0, b0, i1, b1, ino, offset, data) && PtrsKept(i0, b0, i1, b1, ino, lo, hi)
    ensures BytesWritten(i0, b0, i2, b1, ino, offset, data) && PtrsKept(i0, b0, i2, b1, ino, lo, hi)
  {
    hide Entry;
    assert forall u :: IsPlace(i1, u) ==> IsPlace(i2, u) && Ptr(i2, b1, u) == Ptr(i1, b1, u);
  }

  ghost predicate SameButSize(inodes: seq<Inode>, inodes': seq<Inode>, ino: nat) {
    && |inodes'| == |inodes|
    && (forall i :: 0 <= i < |inodes| ==> inodes'[i].kind == inodes[i].kind)
    && (forall i :: 0 <= i < |inodes| && i != ino ==> inodes'[i].size == inodes[i].size)
  }

  // The other files keep their contents.
  lemma OthersKept(i0: seq<Inode>, b0: Blocks, i1: seq<Inode>, b1: Blocks, ino: nat, offset: nat, data: seq<byte>, lo: nat, hi: nat)
    requires BlocksOk(b0) && InodesOk(i0) && BlocksOk(b1) && InodesOk(i1) && SameButSize(i0, i1, ino)
    requires BytesWritten(i0, b0, i1, b1, ino, offset, data) && PtrsKept(i0, b0, i1, b1, ino, lo, hi)
    ensures forall j: nat :: j < |i0| && j != ino && i0[j].IsFile() ==>
      ContentsOf(i1, b1, j) == ContentsOf(i0, b0, j) && (Tidy(i1, b1, j) <==> Tidy(i0, b0, j))
  {
    forall j: nat | j < |i0| && j != ino && i0[j].IsFile()
      ensures ContentsOf(i1, b1, j) == ContentsOf(i0, b0, j) && (Tidy(i1, b1, j) <==> Tidy(i0, b0, j))
    {
      OtherKept(i0, b0, i1, b1, ino, offset, data, lo, hi, j);
    }
  }

  lemma OtherKept(i0: seq<Inode>, b0: Blocks, i1: seq<Inode>, b1: Blocks, ino: nat, offset: nat, data: seq<byte>, lo: nat, hi: nat, j: nat)
    requires BlocksOk(b0) && InodesOk(i0) && BlocksOk(b1) && InodesOk(i1) && SameButSize(i0, i1, ino)
    requires BytesWritten(i0, b0, i1, b1, ino, offset, data) && PtrsKept(i0, b0, i1, b1, ino, lo, hi)
    requires j < |i0| && j != ino && i0[j].IsFile()
    ensures ContentsOf(i1, b1, j) == ContentsOf(i0, b0, j) && (Tidy(i1, b1, j) <==> Tidy(i0, b0, j))
  {
    hide Ptr, FileByte;
    forall pos: nat | pos < MAX_SIZE ensures FileByte(i1, b1, j, pos) == FileByte(i0, b0, j, pos) {
      assert IsByte(i0, j, pos);
    }
    forall k: nat | k < MAX_BLOCKS ensures Ptr(i1, b1, PlaceOf(j, k)) == Ptr(i0, b0, PlaceOf(j, k)) {
      assert IsPlace(i0, PlaceOf(j, k));
    }
  }

  lemma WrittenContents(i0: seq<Inode>, b0: Blocks, i1: seq<Inode>, b1: Blocks, ino: nat, offset: nat, data: seq<byte>, lo: nat, hi: nat)
    requires BlocksOk(b0) && InodesOk(i0) && BlocksOk(b1) && InodesOk(i1) && SameButSize(i0, i1, ino)
    requires BytesWritten(i0, b0, i1, b1, ino, offset, data) && PtrsKept(i0, b0, i1, b1, ino, lo, hi)
    requires ino < |i0| && i0[ino].IsFile() && Tidy(i0, b0, ino) && offset + |data| <= MAX_SIZE
    requires i1[ino].size == if offset + |data| > i0[ino].size then offset + |data| else i0[ino].size
    requires lo == offset / BLOCK_SIZE && hi == BlocksEnd(offset, |data|)
    ensures Tidy(i1, b1, ino) && ContentsOf(i1, b1, ino) == WriteSpec(ContentsOf(i0, b0, ino), offset, data)
  {
    hide Ptr, FileByte;
    forall pos: nat | pos < MAX_SIZE
      ensures FileByte(i1, b1, ino, pos)
           == if offset <= pos < offset + |data| then data[pos - offset] else FileByte(i0, b0, ino, pos)
    {
      assert IsByte(i0, ino, pos);
    }
    forall k: nat | k < MAX_BLOCKS && i1[ino].size <= k * BLOCK_SIZE
      ensures Ptr(i1, b1, PlaceOf(ino, k)) == 0
    {
      assert IsPlace(i0, PlaceOf(ino, k)) && !Touched(PlaceOf(ino, k), ino, lo, hi);
    }
  }

  // Only the pointers at two places may differ.
  ghost predicate SamePtrBut2(inodes: seq<Inode>, blocks: Blocks, inodes': seq<Inode>, blocks': Blocks, u: Use, v: Use)
    requires BlocksOk(blocks) && InodesOk(inodes) && BlocksOk(blocks') && InodesOk(inodes')
  {
    && SameShape(inodes, inodes')
    && (forall w :: IsPlace(inodes, w) ==> IsPlace(inodes', w))
    && (forall w :: IsPlace(inodes, w) && w != u && w != v ==> Ptr(inodes', blocks', w) == Ptr(inodes, blocks, w))
  }

  lemma SameBytesRefl(inodes: seq<Inode>, blocks: Blocks)
    requires BlocksOk(blocks) && InodesOk(inodes)
    ensures SameBytes(inodes, blocks, inodes, blocks)
  {
  }

  lemma SameBytesTrans(i0: seq<Inode>, b0: Blocks, i1: seq<Inode>, b1: Blocks, i2: seq<Inode>, b2: Blocks)
    requires BlocksOk(b0) && InodesOk(i0) && BlocksOk(b1) && InodesOk(i1) && BlocksOk(b2) && InodesOk(i2)
    requires SameBytes(i0, b0, i1, b1) && SameBytes(i1, b1, i2, b2)
    ensures SameBytes(i0, b0, i2, b2)
  {
    hide FileByte;
  }

  lemma PlaceOfBlock(inodes: seq<Inode>, ino: nat, k: nat)
    requires ino < |inodes| && inodes[ino].IsFile() && k < MAX_BLOCKS
    ensures IsPlace(inodes, PlaceOf(ino, k)) && !PlaceOf(ino, k).Indirect?
  {
  }

  lemma SamePlace(i: nat, pos: nat, ino: nat, k: nat)
    ensures PlaceAt(i, pos) == PlaceOf(ino, k) <==> i == ino && k * BLOCK_SIZE <= pos < (k + 1) * BLOCK_SIZE
    ensures PlaceAt(i, pos) == PlaceOf(ino, k) ==> pos % BLOCK_SIZE == pos - k * BLOCK_SIZE
  {
  }

  lemma PtrParts(inodes: seq<Inode>, blocks: Blocks, owner: map<nat, Use>, ino: nat, k: nat)
    requires BlocksOk(blocks) && InodesOk(inodes) && Owned(inodes, blocks, owner)
    requires ino < |inodes| && inodes[ino].IsFile() && k < MAX_BLOCKS
    ensures IsPlace(inodes, PlaceOf(ino, k))
    ensures inodes[ino].indirect != 0 ==> inodes[ino].indirect < |blocks|
    ensures Ptr(inodes, blocks, PlaceOf(ino, k))
      == if k < NDIRECT then inodes[ino].direct[k]
         else if inodes[ino].indirect == 0 then 0
         else Entry(blocks[inodes[ino].indirect], k - NDIRECT)
    ensures var p := Ptr(inodes, blocks, PlaceOf(ino, k)); p != 0 ==> p < |blocks|
  {
    hide Entry;
    IndirectOwned(inodes, blocks, owner, ino);
    var p := Ptr(inodes, blocks, PlaceOf(ino, k));
    assert p != 0 ==> p in owner;
  }

  lemma PieceOfFile(inodes: seq<Inode>, blocks: Blocks, ino: nat, pos: nat, amount: nat, piece: seq<byte>)
    requires BlocksOk(blocks) && InodesOk(inodes) && ino < |inodes| && inodes[ino].IsFile()
    requires pos + amount <= MAX_SIZE && pos % BLOCK_SIZE + amount <= BLOCK_SIZE && amount > 0
    requires IsPlace(inodes, PlaceOf(ino, pos / BLOCK_SIZE))
    requires var b := Ptr(inodes, blocks, PlaceOf(ino, pos / BLOCK_SIZE)); b == 0 || b < |blocks|
    requires |piece| == amount
    requires var b := Ptr(inodes, blocks, PlaceOf(ino, pos / BLOCK_SIZE));
      forall j :: 0 <= j < amount ==> piece[j] == if b == 0 then 0 else blocks[b][pos % BLOCK_SIZE + j]
    ensures forall j :: 0 <= j < amount ==> piece[j] == FileByte(inodes, blocks, ino, pos + j)
  {
    hide Ptr;
    forall j | 0 <= j < amount ensures piece[j] == FileByte(inodes, blocks, ino, pos + j) {
      assert (pos + j) / BLOCK_SIZE == pos / BLOCK_SIZE && (pos + j) % BLOCK_SIZE == pos % BLOCK_SIZE + j;
    }
  }

  // The bytes of one place read as zero, and every other byte of every file is as before.
  ghost predicate BytesCleared(inodes: seq<Inode>, blocks: Blocks, inodes': seq<Inode>, blocks': Blocks, u: Use)
    requires BlocksOk(blocks) && InodesOk(inodes) && BlocksOk(blocks') && InodesOk(inodes')
  {
    forall i: nat, pos: nat :: IsByte(inodes, i, pos) ==>
      IsByte(inodes', i, pos) && FileByte(inodes', blocks', i, pos)
        == if PlaceAt(i, pos) == u then 0 else FileByte(inodes, blocks, i, pos)
  }

  // ---------------------------------------------------------------------------------------------
  // What emptying a file means

  // The file has all its blocks, and an indirect block only when it needs one.
  ghost predicate HoleFree(inodes: seq<Inode>, blocks: Blocks, ino: nat)
    requires BlocksOk(blocks) && InodesOk(inodes) && ino < |inodes| && inodes[ino].IsFile()
  {
    && (forall k: nat :: k < MAX_BLOCKS && k * BLOCK_SIZE < inodes[ino].size ==> Ptr(inodes, blocks, PlaceOf(ino, k)) != 0)
    && (inodes[ino].indirect != 0 ==> inodes[ino].size > NDIRECT * BLOCK_SIZE)
  }

  function Zeros(): (s: seq<byte>)
    ensures |s| == MAX_SIZE && forall k :: 0 <= k < |s| ==> s[k] == 0
  {
    seq(MAX_SIZE, _ => 0)
  }

  // The blocks of the file above c are gone; the lower ones, and all other files, are as before.
  ghost predicate Emptying(i0: seq<Inode>, b0: Blocks, i1: seq<Inode>, b1: Blocks, ino: nat, c: int)
    requires BlocksOk(b0) && InodesOk(i0) && BlocksOk(b1) && InodesOk(i1)
    requires ino < |i0| && i0[ino].IsFile() && ino < |i1| && i1[ino].IsFile()
  {
    && PtrsKept(i0, b0, i1, b1, ino, 0, MAX_BLOCKS)
    && (forall k: nat :: k < MAX_BLOCKS ==>
          IsPlace(i1, PlaceOf(ino, k)) && Ptr(i1, b1, PlaceOf(ino, k)) == if k > c then 0 else Ptr(i0, b0, PlaceOf(ino, k)))
    && (forall i: nat, pos: nat :: IsByte(i0, i, pos) && i != ino ==>
          IsByte(i1, i, pos) && FileByte(i1, b1, i, pos) == FileByte(i0, b0, i, pos))
  }

  lemma TidySize(inodes: seq<Inode>, blocks: Blocks, ino: nat)
    requires BlocksOk(blocks) && InodesOk(inodes) && ino < |inodes| && inodes[ino].IsFile() && Tidy(inodes, blocks, ino)
    ensures inodes[ino].size <= MAX_SIZE
  {
  }

  lemma StartEmptying(inodes: seq<Inode>, blocks: Blocks, ino: nat)
    requires BlocksOk(blocks) && InodesOk(inodes) && ino < |inodes| && inodes[ino].IsFile() && Tidy(inodes, blocks, ino)
    ensures Emptying(inodes, blocks, inodes, blocks, ino, inodes[ino].size / BLOCK_SIZE)
  {
    hide Ptr, FileByte;
    forall k: nat | k < MAX_BLOCKS && k > inodes[ino].size / BLOCK_SIZE
      ensures Ptr(inodes, blocks, PlaceOf(ino, k)) == 0
    {
      assert inodes[ino].size <= k * BLOCK_SIZE;
    }
  }

  lemma PtrNow(i0: seq<Inode>, b0: Blocks, i1: seq<Inode>, b1: Blocks, ino: nat, c: nat)
    requires BlocksOk(b0) && InodesOk(i0) && BlocksOk(b1) && InodesOk(i1)
    requires ino < |i0| && i0[ino].IsFile() && ino < |i1| && i1[ino].IsFile()
    requires Emptying(i0, b0, i1, b1, ino, c) && c < MAX_BLOCKS
    ensures IsPlace(i1, PlaceOf(ino, c)) && Ptr(i1, b1, PlaceOf(ino, c)) == Ptr(i0, b0, PlaceOf(ino, c))
  {
    hide Ptr, IsPlace;
  }

  lemma ClearedOne(i0: seq<Inode>, b0: Blocks, i1: seq<Inode>, b1: Blocks, i2: seq<Inode>, b2: Blocks, ino: nat, c: nat)
    requires BlocksOk(b0) && InodesOk(i0) && BlocksOk(b1) && InodesOk(i1) && BlocksOk(b2) && InodesOk(i2)
    requires ino < |i0| && i0[ino].IsFile() && ino < |i1| && i1[ino].IsFile() && ino < |i2| && i2[ino].IsFile()
    requires Emptying(i0, b0, i1, b1, ino, c) && c < MAX_BLOCKS
    requires SamePtrBut(i1, b1, i2, b2, PlaceOf(ino, c), 0) && BytesCleared(i1, b1, i2, b2, PlaceOf(ino, c))
    ensures Emptying(i0, b0, i2, b2, ino, c - 1)
    ensures i2[ino].indirect == i1[ino].indirect
  {
    hide FileByte, Entry;
    assert IsPlace(i1, Indirect(ino)) && IsPlace(i2, Indirect(ino));
    assert Ptr(i2, b2, Indirect(ino)) == Ptr(i1, b1, Indirect(ino));
    ClearedKept(i0, b0, i1, b1, i2, b2, ino, PlaceOf(ino, c), 0);
    ClearedBytes(i0, b0, i1, b1, i2, b2, ino, c);
    forall k: nat | k < MAX_BLOCKS
      ensures IsPlace(i2, PlaceOf(ino, k))
      ensures Ptr(i2, b2, PlaceOf(ino, k)) == if k > c - 1 then 0 else Ptr(i0, b0, PlaceOf(ino, k))
    {
      assert IsPlace(i1, PlaceOf(ino, k));
    }
  }

  lemma ClearedBytes(i0: seq<Inode>, b0: Blocks, i1: seq<Inode>, b1: Blocks, i2: seq<Inode>, b2: Blocks, ino: nat, c: nat)
    requires BlocksOk(b0) && InodesOk(i0) && BlocksOk(b1) && InodesOk(i1) && BlocksOk(b2) && InodesOk(i2)
    requires ino < |i0| && i0[ino].IsFile() && ino < |i1| && i1[ino].IsFile() && c < MAX_BLOCKS
    requires Emptying(i0, b0, i1, b1, ino, c) && BytesCleared(i1, b1, i2, b2, PlaceOf(ino, c))
    ensures forall i: nat, pos: nat :: IsByte(i0, i, pos) && i != ino ==>
      IsByte(i2, i, pos) && FileByte(i2, b2, i, pos) == FileByte(i0, b0, i, pos)
  {
    hide FileByte, IsPlace, Ptr;
  }

  lemma ClearedKept(i0: seq<Inode>, b0: Blocks, i1: seq<Inode>, b1: Blocks, i2: seq<Inode>, b2: Blocks, ino: nat, u: Use, x: nat)
    requires BlocksOk(b0) && InodesOk(i0) && BlocksOk(b1) && InodesOk(i1) && BlocksOk(b2) && InodesOk(i2)
    requires PtrsKept(i0, b0, i1, b1, ino, 0, MAX_BLOCKS) && SamePtrBut(i1, b1, i2, b2, u, x) && IsPlace(i1, u) && u.ino == ino
    ensures PtrsKept(i0, b0, i2, b2, ino, 0, MAX_BLOCKS)
  {
    hide Ptr;
  }

  lemma ClearedIndirect(i0: seq<Inode>, b0: Blocks, i1: seq<Inode>, b1: Blocks, i2: seq<Inode>, b2: Blocks, ino: nat, c: int)
    requires BlocksOk(b0) && InodesOk(i0) && BlocksOk(b1) && InodesOk(i1) && BlocksOk(b2) && InodesOk(i2)
    requires ino < |i0| && i0[ino].IsFile() && ino < |i1| && i1[ino].IsFile() && ino < |i2| && i2[ino].IsFile()
    requires Emptying(i0, b0, i1, b1, ino, c)
    requires SamePtrBut(i1, b1, i2, b2, Indirect(ino), 0) && BytesCleared(i1, b1, i2, b2, Indirect(ino))
    ensures Emptying(i0, b0, i2, b2, ino, c)
    ensures i2[ino].indirect == 0
  {
    hide FileByte, Entry;
    assert IsPlace(i1, Indirect(ino)) && IsPlace(i2, Indirect(ino));
    assert Ptr(i2, b2, Indirect(ino)) == 0;
    ClearedKept(i0, b0, i1, b1, i2, b2, ino, Indirect(ino), 0);
    forall k: nat | k < MAX_BLOCKS
      ensures IsPlace(i2, PlaceOf(ino, k))
      ensures Ptr(i2, b2, PlaceOf(ino, k)) == if k > c then 0 else Ptr(i0, b0, PlaceOf(ino, k))
    {
      assert IsPlace(i1, PlaceOf(ino, k));
    }
  }

  lemma ClearedHole(i0: seq<Inode>, b0: Blocks, i1: seq<Inode>, b1: Blocks, ino: nat, c: nat)
    requires BlocksOk(b0) && InodesOk(i0) && BlocksOk(b1) && InodesOk(i1)
    requires ino < |i0| && i0[ino].IsFile() && ino < |i1| && i1[ino].IsFile()
    requires Emptying(i0, b0, i1, b1, ino, c)
    requires c < MAX_BLOCKS ==> IsPlace(i1, PlaceOf(ino, c)) && Ptr(i1, b1, PlaceOf(ino, c)) == 0
    ensures Emptying(i0, b0, i1, b1, ino, c - 1)
  {
    hide FileByte, Ptr, IsPlace;
  }

  lemma NoSlotsLeft(i0: seq<Inode>, b0: Blocks, i1: seq<Inode>, b1: Blocks, ino: nat)
    requires BlocksOk(b0) && InodesOk(i0) && BlocksOk(b1) && InodesOk(i1)
    requires ino < |i0| && i0[ino].IsFile() && ino < |i1| && i1[ino].IsFile()
    requires Emptying(i0, b0, i1, b1, ino, NDIRECT - 1)
    ensures NoSlots(i1, b1, ino)
  {
    hide Ptr;
    forall k: nat | k < NSLOTS ensures Ptr(i1, b1, Slot(ino, k)) == 0 {
      assert PlaceOf(ino, NDIRECT + k) == Slot(ino, k);
    }
  }

  lemma EmptyNow(i0: seq<Inode>, b0: Blocks, i1: seq<Inode>, b1: Blocks, ino: nat)
    requires BlocksOk(b0) && InodesOk(i0) && BlocksOk(b1) && InodesOk(i1) && |i1| == |i0|
    requires ino < |i0| && i0[ino].IsFile() && ino < |i1| && i1[ino].IsFile()
    requires Emptying(i0, b0, i1, b1, ino, -1)
    ensures BytesWritten(i0, b0, i1, b1, ino, 0, Zeros()) && PtrsKept(i0, b0, i1, b1, ino, 0, MAX_BLOCKS)
    ensures forall k: nat :: k < MAX_BLOCKS ==> IsPlace(i1, PlaceOf(ino, k)) && Ptr(i1, b1, PlaceOf(ino, k)) == 0
  {
    hide Ptr, IsPlace;
    forall i: nat, pos: nat | IsByte(i0, i, pos)
      ensures IsByte(i1, i, pos)
      ensures FileByte(i1, b1, i, pos) == if i == ino then 0 else FileByte(i0, b0, i, pos)
    {
      if i == ino {
        assert Ptr(i1, b1, PlaceOf(ino, pos / BLOCK_SIZE)) == 0;
      }
    }
  }

  lemma EmptyTidy(i0: seq<Inode>, b0: Blocks, i1: seq<Inode>, b1: Blocks, ino: nat)
    requires BlocksOk(b0) && InodesOk(i0) && BlocksOk(b1) && InodesOk(i1)
    requires ino < |i0| && i0[ino].IsFile() && ino < |i1| && i1[ino].IsFile() && i1[ino].size == 0
    requires BytesWritten(i0, b0, i1, b1, ino, 0, Zeros())
    requires forall k: nat :: k < MAX_BLOCKS ==> Ptr(i1, b1, PlaceOf(ino, k)) == 0
    ensures Tidy(i1, b1, ino)
  {
    hide Ptr, FileByte;
    forall pos: nat | pos < MAX_SIZE ensures FileByte(i1, b1, ino, pos) == 0 {
      assert IsByte(i0, ino, pos);
    }
  }
}
