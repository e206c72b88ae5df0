/** On-disk structures of `tools/fsmaker/api.py`: 4096-byte blocks, block numbers packed in them, the
    chain of free-block nodes, and the pointers of an inode, all as values. */
module S5Layout {
  import opened Bytes

  const BLOCK_SIZE := 4096
  const NDIRECT := 28                   // S5_NDIRECT_BLOCKS
  const NSLOTS := 1024                  // block numbers in an indirect block
  const NODE_ENTRIES := 29              // S5_NBLKS_PER_FNODE - 1
  const MAX_BLOCKS := 1052              // S5_MAX_FILE_BLOCKS
  const MAX_SIZE := 4_308_992           // S5_MAX_FILE_SIZE
  const NO_BLOCK := MAX_WORD

  type Block = seq<byte>
  type Blocks = seq<Block>

  ghost predicate BlocksOk(blocks: Blocks) {
    |blocks| <= NO_BLOCK && forall b :: 0 <= b < |blocks| ==> |blocks[b]| == BLOCK_SIZE
  }

  // The k-th block number stored in a block.
  function Entry(block: Block, k: nat): nat
    requires |block| == BLOCK_SIZE && k < NSLOTS
  {
    Unpack(block[4 * k..4 * k + 4])
  }

  // blocks with x packed at entry k of block b
  function PutEntry(blocks: Blocks, b: nat, k: nat, x: nat): Blocks
    requires b < |blocks| && |blocks[b]| == BLOCK_SIZE && k < NSLOTS
  {
    blocks[b := Overlay(blocks[b], 4 * k, Pack(x))]
  }

  lemma EntryOverlay(block: Block, k: nat, x: nat)
    requires |block| == BLOCK_SIZE && k < NSLOTS && x <= NO_BLOCK
    ensures forall j: nat :: j < NSLOTS ==> Entry(Overlay(block, 4 * k, Pack(x)), j) == if j == k then x else Entry(block, j)
  {
    var r := Overlay(block, 4 * k, Pack(x));
    forall j: nat | j < NSLOTS ensures Entry(r, j) == if j == k then x else Entry(block, j) {
      if j == k {
        assert r[4 * k..4 * k + 4] == Pack(x);
        UnpackPack(x);
      } else {
        assert r[4 * j..4 * j + 4] == block[4 * j..4 * j + 4];
      }
    }
  }

  function ZeroBlock(): (s: Block)
    ensures |s| == BLOCK_SIZE && forall k :: 0 <= k < |s| ==> s[k] == 0
  {
    seq(BLOCK_SIZE, _ => 0)
  }

  lemma ZeroEntry(k: nat)
    requires k < NSLOTS
    ensures Entry(ZeroBlock(), k) == 0
  {
    assert ZeroBlock()[4 * k..4 * k + 4] == [0, 0, 0, 0];
  }

  // ---------------------------------------------------------------------------------------------
  // The stack of free blocks

  // nodes are the free-block nodes reached from last, the nearest first.
  ghost predicate IsChain(blocks: Blocks, last: nat, nodes: seq<nat>)
    requires BlocksOk(blocks)
    decreases |nodes|
  {
    if nodes == [] then last == NO_BLOCK
    else last == nodes[0] && last < |blocks| && IsChain(blocks, Entry(blocks[last], NODE_ENTRIES), nodes[1..])
  }

  // The block numbers stored in a node.
  ghost function NodeEntries(block: Block): (s: seq<nat>)
    requires |block| == BLOCK_SIZE
    ensures |s| == NODE_ENTRIES
  {
    seq(NODE_ENTRIES, k requires 0 <= k < NODE_ENTRIES => Entry(block, k))
  }

  // The free blocks kept in the chain; the last one is handed out first.
  ghost function ChainStack(blocks: Blocks, nodes: seq<nat>): seq<nat>
    requires BlocksOk(blocks) && forall i :: 0 <= i < |nodes| ==> nodes[i] < |blocks|
    decreases |nodes|
  {
    if nodes == [] then []
    else ChainStack(blocks, nodes[1..]) + NodeEntries(blocks[nodes[0]]) + [nodes[0]]
  }

  lemma {:induction false} ChainNodesOnDisk(blocks: Blocks, last: nat, nodes: seq<nat>)
    requires BlocksOk(blocks) && IsChain(blocks, last, nodes)
    ensures forall i :: 0 <= i < |nodes| ==> nodes[i] < |blocks|
    decreases |nodes|
  {
    if nodes != [] {
      ChainNodesOnDisk(blocks, Entry(blocks[last], NODE_ENTRIES), nodes[1..]);
    }
  }

  lemma {:induction false} ChainNodesInStack(blocks: Blocks, nodes: seq<nat>)
    requires BlocksOk(blocks) && forall i :: 0 <= i < |nodes| ==> nodes[i] < |blocks|
    ensures forall n :: n in nodes ==> n in ChainStack(blocks, nodes)
    decreases |nodes|
  {
    if nodes != [] {
      ChainNodesInStack(blocks, nodes[1..]);
    }
  }

  // The chain depends on its own nodes only.
  lemma {:induction false} ChainFrame(blocks: Blocks, blocks': Blocks, last: nat, nodes: seq<nat>)
    requires BlocksOk(blocks) && BlocksOk(blocks') && |blocks| == |blocks'| && IsChain(blocks, last, nodes)
    requires forall b :: b in nodes && b < |blocks| ==> blocks'[b] == blocks[b]
    ensures IsChain(blocks', last, nodes)
    ensures forall i :: 0 <= i < |nodes| ==> nodes[i] < |blocks|
    ensures ChainStack(blocks', nodes) == ChainStack(blocks, nodes)
    decreases |nodes|
  {
    if nodes != [] {
      assert last in nodes;
      ChainFrame(blocks, blocks', Entry(blocks[last], NODE_ENTRIES), nodes[1..]);
      ChainNodesOnDisk(blocks, last, nodes);
    }
  }

  ghost predicate AllDifferent(s: seq<nat>) {
    forall i, j :: 0 <= i < j < |s| ==> s[i] != s[j]
  }

  ghost function Elements(s: seq<nat>): set<nat> {
    set x | x in s
  }

  // ---------------------------------------------------------------------------------------------
  // Inodes and their pointers

  datatype FileType = Free | Data | Dir | Other

  datatype Inode = Inode(kind: FileType, size: nat, direct: seq<nat>, indirect: nat) {
    // Whether read and write accept it.
    predicate IsFile() {
      kind == Data || kind == Dir
    }
  }

  // The places that hold block numbers.
  datatype Use = Direct(ino: nat, k: nat) | Indirect(ino: nat) | Slot(ino: nat, k: nat)

  ghost predicate InodesOk(inodes: seq<Inode>) {
    forall i :: 0 <= i < |inodes| ==> |inodes[i].direct| == NDIRECT
  }

  ghost predicate IsPlace(inodes: seq<Inode>, u: Use) {
    u.ino < |inodes| && inodes[u.ino].IsFile() && match u
      case Direct(_, k) => k < NDIRECT
      case Indirect(_) => true
      case Slot(_, k) => k < NSLOTS
  }

  // The block number stored at a place; the slots of an absent indirect block read as 0.
  ghost function Ptr(inodes: seq<Inode>, blocks: Blocks, u: Use): nat
    requires BlocksOk(blocks) && InodesOk(inodes) && IsPlace(inodes, u)
  {
    match u
    case Direct(i, k) => inodes[i].direct[k]
    case Indirect(i) => inodes[i].indirect
    case Slot(i, k) =>
      var b := inodes[i].indirect;
      if b == 0 || b >= |blocks| then 0 else Entry(blocks[b], k)
  }

  // The place of the k-th block of a file.
  function PlaceOf(ino: nat, k: nat): Use {
    if k < NDIRECT then Direct(ino, k) else Slot(ino, k - NDIRECT)
  }

  // owner names, for each block in use, the one place that refers to it.
  ghost predicate Owned(inodes: seq<Inode>, blocks: Blocks, owner: map<nat, Use>)
    requires BlocksOk(blocks) && InodesOk(inodes)
  {
    && (forall u :: IsPlace(inodes, u) && Ptr(inodes, blocks, u) != 0 ==>
          Ptr(inodes, blocks, u) in owner && owner[Ptr(inodes, blocks, u)] == u)
    && (forall b :: b in owner ==>
          0 < b < |blocks| && IsPlace(inodes, owner[b]) && Ptr(inodes, blocks, owner[b]) == b)
  }

  // The byte at position pos of a file; holes read as zero.
  ghost function FileByte(inodes: seq<Inode>, blocks: Blocks, ino: nat, pos: nat): byte
    requires BlocksOk(blocks) && InodesOk(inodes) && ino < |inodes| && inodes[ino].IsFile()
    requires pos < MAX_SIZE
  {
    var b := Ptr(inodes, blocks, PlaceAt(ino, pos));
    if b == 0 || b >= |blocks| then 0 else blocks[b][pos % BLOCK_SIZE]
  }

  // ---------------------------------------------------------------------------------------------
  // What changes of blocks and pointers leave alone

  // Pointers are read from indirect blocks only, bytes from all blocks in use.
  ghost predicate SameIndirect(blocks: Blocks, blocks': Blocks, owner: map<nat, Use>) {
    |blocks'| == |blocks| && forall b :: b in owner && b < |blocks| && owner[b].Indirect? ==> blocks'[b] == blocks[b]
  }

  lemma PtrFrame(inodes: seq<Inode>, blocks: Blocks, blocks': Blocks, owner: map<nat, Use>, u: Use)
    requires BlocksOk(blocks) && BlocksOk(blocks') && InodesOk(inodes) && Owned(inodes, blocks, owner)
    requires SameIndirect(blocks, blocks', owner) && IsPlace(inodes, u)
    ensures Ptr(inodes, blocks', u) == Ptr(inodes, blocks, u)
  {
    hide Entry;
    if u.Slot? {
      IndirectOwned(inodes, blocks, owner, u.ino);
    }
  }

  lemma IndirectOwned(inodes: seq<Inode>, blocks: Blocks, owner: map<nat, Use>, i: nat)
    requires BlocksOk(blocks) && InodesOk(inodes) && Owned(inodes, blocks, owner)
    requires i < |inodes| && inodes[i].IsFile()
    ensures var b := inodes[i].indirect; b != 0 ==> b in owner && owner[b] == Indirect(i) && b < |blocks|
  {
    assert IsPlace(inodes, Indirect(i));
    assert Ptr(inodes, blocks, Indirect(i)) == inodes[i].indirect;
  }

  lemma OwnedFrame(inodes: seq<Inode>, blocks: Blocks, blocks': Blocks, owner: map<nat, Use>)
    requires BlocksOk(blocks) && BlocksOk(blocks') && InodesOk(inodes) && Owned(inodes, blocks, owner)
    requires SameIndirect(blocks, blocks', owner)
    ensures Owned(inodes, blocks', owner)
  {
    hide Ptr, IsPlace;
    forall u | IsPlace(inodes, u) ensures Ptr(inodes, blocks', u) == Ptr(inodes, blocks, u) {
      PtrFrame(inodes, blocks, blocks', owner, u);
    }
  }

  // A position of a file.
  ghost predicate IsByte(inodes: seq<Inode>, i: nat, pos: nat) {
    i < |inodes| && inodes[i].IsFile() && pos < MAX_SIZE
  }

  // The place of the block that holds position pos.
  function PlaceAt(i: nat, pos: nat): Use {
    PlaceOf(i, pos / BLOCK_SIZE)
  }

  lemma PlaceOfByte(inodes: seq<Inode>, i: nat, pos: nat)
    requires IsByte(inodes, i, pos)
    ensures IsPlace(inodes, PlaceAt(i, pos)) && !PlaceAt(i, pos).Indirect? && PlaceAt(i, pos).ino == i
  {
  }

  // ---------------------------------------------------------------------------------------------
  // Storing a pointer

  // set_direct_blockno, set_indirect_blockno, or a block number written into the indirect block
  function InstallInode(inodes: seq<Inode>, u: Use, x: nat): seq<Inode>
    requires u.ino < |inodes| && (u.Direct? ==> u.k < |inodes[u.ino].direct|)
  {
    match u
    case Direct(i, k) => inodes[i := inodes[i].(direct := inodes[i].direct[k := x])]
    case Indirect(i) => inodes[i := inodes[i].(indirect := x)]
    case Slot(_, _) => inodes
  }

  function InstallBlock(inodes: seq<Inode>, blocks: Blocks, u: Use, x: nat): Blocks
    requires u.ino < |inodes|
    requires u.Slot? ==> u.k < NSLOTS && inodes[u.ino].indirect < |blocks| && |blocks[inodes[u.ino].indirect]| == BLOCK_SIZE
  {
    if u.Slot? then PutEntry(blocks, inodes[u.ino].indirect, u.k, x) else blocks
  }

  // The slots of the file all read as 0.
  ghost predicate NoSlots(inodes: seq<Inode>, blocks: Blocks, i: nat)
    requires BlocksOk(blocks) && InodesOk(inodes) && i < |inodes| && inodes[i].IsFile()
  {
    forall k: nat :: k < NSLOTS ==> Ptr(inodes, blocks, Slot(i, k)) == 0
  }

  // A pointer can be stored at u: the indirect block of a slot is there, and an indirect block is
  // only linked or unlinked while all its slots are 0.
  ghost predicate CanStore(inodes: seq<Inode>, blocks: Blocks, u: Use, x: nat)
    requires BlocksOk(blocks) && InodesOk(inodes) && IsPlace(inodes, u)
  {
    match u
    case Direct(_, _) => true
    case Indirect(i) => NoSlots(inodes, blocks, i) && (x == 0 || (x < |blocks| && blocks[x] == ZeroBlock()))
    case Slot(i, _) => 0 < inodes[i].indirect < |blocks| && x <= NO_BLOCK
  }

  // Only the pointer at u changes.
  lemma PtrInstall(inodes: seq<Inode>, blocks: Blocks, owner: map<nat, Use>, u: Use, x: nat, v: Use)
    requires BlocksOk(blocks) && InodesOk(inodes) && Owned(inodes, blocks, owner)
    requires IsPlace(inodes, u) && CanStore(inodes, blocks, u, x) && IsPlace(inodes, v)
    ensures BlocksOk(InstallBlock(inodes, blocks, u, x)) && InodesOk(InstallInode(inodes, u, x))
    ensures IsPlace(InstallInode(inodes, u, x), v)
    ensures Ptr(InstallInode(inodes, u, x), InstallBlock(inodes, blocks, u, x), v)
         == if v == u then x else Ptr(inodes, blocks, v)
  {
    hide Entry;
    match u {
      case Direct(_, _) =>
      case Indirect(i) =>
        if v.Slot? && v.ino == i {
          ZeroEntry(v.k);
          assert Ptr(inodes, blocks, v) == 0;
        }
      case Slot(i, k) =>
        EntryOverlay(blocks[inodes[i].indirect], k, x);
        if v.Slot? && v.ino != i {
          OneIndirectEach(inodes, blocks, owner, i, v.ino);
        }
    }
  }

  lemma OneIndirectEach(inodes: seq<Inode>, blocks: Blocks, owner: map<nat, Use>, i: nat, j: nat)
    requires BlocksOk(blocks) && InodesOk(inodes) && Owned(inodes, blocks, owner)
    requires i != j && IsPlace(inodes, Indirect(i)) && IsPlace(inodes, Indirect(j))
    ensures inodes[i].indirect == inodes[j].indirect ==> inodes[i].indirect == 0
  {
    assert Ptr(inodes, blocks, Indirect(i)) == inodes[i].indirect;
    assert Ptr(inodes, blocks, Indirect(j)) == inodes[j].indirect;
  }

  // The same kinds and sizes, and the same set of places.
  ghost predicate SameShape(inodes: seq<Inode>, inodes': seq<Inode>) {
    && |inodes'| == |inodes|
    && forall i :: 0 <= i < |inodes| ==> inodes'[i].kind == inodes[i].kind && inodes'[i].size == inodes[i].size
  }

  ghost predicate SamePtrBut(inodes: seq<Inode>, blocks: Blocks, inodes': seq<Inode>, blocks': Blocks, u: Use, x: nat)
    requires BlocksOk(blocks) && InodesOk(inodes) && BlocksOk(blocks') && InodesOk(inodes')
  {
    && SameShape(inodes, inodes')
    && (forall v :: IsPlace(inodes, v) ==>
          IsPlace(inodes', v) && Ptr(inodes', blocks', v) == if v == u then x else Ptr(inodes, blocks, v))
  }

  ghost predicate SameBytes(inodes: seq<Inode>, blocks: Blocks, inodes': seq<Inode>, blocks': Blocks)
    requires BlocksOk(blocks) && InodesOk(inodes) && BlocksOk(blocks') && InodesOk(inodes')
  {
    && SameShape(inodes, inodes')
    && (forall i: nat, pos: nat :: IsByte(inodes, i, pos) ==>
          IsByte(inodes', i, pos) && FileByte(inodes', blocks', i, pos) == FileByte(inodes, blocks, i, pos))
  }

  // ---------------------------------------------------------------------------------------------
  // The three elementary changes to a file

  /** Linking a zeroed block that nobody uses where a hole was: no byte of any file changes. */
  lemma LinkStep(inodes: seq<Inode>, blocks: Blocks, owner: map<nat, Use>, u: Use, b: nat,
                 inodes': seq<Inode>, blocks': Blocks)
    requires BlocksOk(blocks) && InodesOk(inodes) && Owned(inodes, blocks, owner)
    requires IsPlace(inodes, u) && Ptr(inodes, blocks, u) == 0 && 0 < b < |blocks| && b !in owner
    requires u.Slot? ==> inodes[u.ino].indirect != 0
    requires inodes' == InstallInode(inodes, u, b)
    requires (IndirectOwned(inodes, blocks, owner, u.ino); blocks' == InstallBlock(inodes, blocks[b := ZeroBlock()], u, b))
    ensures BlocksOk(blocks') && InodesOk(inodes') && |blocks'| == |blocks|
    ensures Owned(inodes', blocks', owner[b := u])
    ensures SamePtrBut(inodes, blocks, inodes', blocks', u, b)
    ensures SameBytes(inodes, blocks, inodes', blocks')
    ensures forall c :: 0 <= c < |blocks| && c !in owner && c != b ==> blocks'[c] == blocks[c]
  {
    hide Ptr, IsPlace, FileByte, Entry;
    var blocks1 := blocks[b := ZeroBlock()];
    OwnedFrame(inodes, blocks, blocks1, owner);
    CanLink(inodes, blocks, owner, u, b);
    forall v | IsPlace(inodes, v)
      ensures BlocksOk(blocks') && InodesOk(inodes') && IsPlace(inodes', v)
      ensures Ptr(inodes', blocks', v) == if v == u then b else Ptr(inodes, blocks, v)
    {
      PtrFrame(inodes, blocks, blocks1, owner, v);
      PtrInstall(inodes, blocks1, owner, u, b, v);
    }
    PtrInstall(inodes, blocks1, owner, u, b, u);
    InstallShape(inodes, u, b);
    assert SamePtrBut(inodes, blocks, inodes', blocks', u, b);
    OwnedAfter(inodes, blocks, owner, inodes', blocks', u, b, owner[b := u]);
    forall i: nat, pos: nat | IsByte(inodes, i, pos)
      ensures IsByte(inodes', i, pos) && FileByte(inodes', blocks', i, pos) == FileByte(inodes, blocks, i, pos)
    {
      LinkByte(inodes, blocks, owner, u, b, inodes', blocks', i, pos);
    }
    UntouchedBlocks(inodes, blocks1, owner, u, b);
  }

  lemma CanLink(inodes: seq<Inode>, blocks: Blocks, owner: map<nat, Use>, u: Use, b: nat)
    requires BlocksOk(blocks) && InodesOk(inodes) && Owned(inodes, blocks, owner)
    requires IsPlace(inodes, u) && Ptr(inodes, blocks, u) == 0 && 0 < b < |blocks|
    requires u.Slot? ==> inodes[u.ino].indirect != 0
    ensures CanStore(inodes, blocks[b := ZeroBlock()], u, b)
  {
    if u.Slot? {
      IndirectOwned(inodes, blocks, owner, u.ino);
    }
  }

  lemma InstallShape(inodes: seq<Inode>, u: Use, x: nat)
    requires InodesOk(inodes) && IsPlace(inodes, u)
    ensures SameShape(inodes, InstallInode(inodes, u, x))
    ensures forall v :: IsPlace(InstallInode(inodes, u, x), v) <==> IsPlace(inodes, v)
  {
  }

  // Only the indirect block of a slot is written.
  lemma UntouchedBlocks(inodes: seq<Inode>, blocks: Blocks, owner: map<nat, Use>, u: Use, x: nat)
    requires BlocksOk(blocks) && InodesOk(inodes) && Owned(inodes, blocks, owner) && IsPlace(inodes, u)
    requires u.Slot? ==> 0 < inodes[u.ino].indirect < |blocks|
    ensures |InstallBlock(inodes, blocks, u, x)| == |blocks|
    ensures forall c :: 0 <= c < |blocks| && !(c in owner && owner[c].Indirect?) ==>
      InstallBlock(inodes, blocks, u, x)[c] == blocks[c]
  {
    IndirectOwned(inodes, blocks, owner, u.ino);
  }

  // With one pointer stored, the owners are those of the new pointers.
  lemma OwnedAfter(inodes: seq<Inode>, blocks: Blocks, owner: map<nat, Use>,
                   inodes': seq<Inode>, blocks': Blocks, u: Use, x: nat, owner': map<nat, Use>)
    requires BlocksOk(blocks) && InodesOk(inodes) && Owned(inodes, blocks, owner)
    requires BlocksOk(blocks') && InodesOk(inodes') && |blocks'| == |blocks|
    requires IsPlace(inodes, u) && SamePtrBut(inodes, blocks, inodes', blocks', u, x)
    requires forall v :: IsPlace(inodes', v) <==> IsPlace(inodes, v)
    requires x != 0 ==> x !in owner && 0 < x < |blocks| && Ptr(inodes, blocks, u) == 0 && owner' == owner[x := u]
    requires x == 0 ==> Ptr(inodes, blocks, u) != 0 && owner' == owner - {Ptr(inodes, blocks, u)}
    ensures Owned(inodes', blocks', owner')
  {
    hide Ptr, IsPlace;
  }

  lemma LinkByte(inodes: seq<Inode>, blocks: Blocks, owner: map<nat, Use>, u: Use, b: nat,
                 inodes': seq<Inode>, blocks': Blocks, i: nat, pos: nat)
    requires BlocksOk(blocks) && InodesOk(inodes) && Owned(inodes, blocks, owner)
    requires IsPlace(inodes, u) && Ptr(inodes, blocks, u) == 0 && 0 < b < |blocks| && b !in owner
    requires u.Slot? ==> 0 < inodes[u.ino].indirect < |blocks|
    requires inodes' == InstallInode(inodes, u, b) && blocks' == InstallBlock(inodes, blocks[b := ZeroBlock()], u, b)
    requires BlocksOk(blocks') && InodesOk(inodes') && SamePtrBut(inodes, blocks, inodes', blocks', u, b)
    requires IsByte(inodes, i, pos)
    ensures IsByte(inodes', i, pos) && FileByte(inodes', blocks', i, pos) == FileByte(inodes, blocks, i, pos)
  {
    hide Ptr, IsPlace, Entry;
    var v, blocks1 := PlaceAt(i, pos), blocks[b := ZeroBlock()];
    PlaceOfByte(inodes, i, pos);
    OwnedFrame(inodes, blocks, blocks1, owner);
    UntouchedBlocks(inodes, blocks1, owner, u, b);
    if v == u {
      assert blocks'[b] == ZeroBlock();
    } else {
      var p := Ptr(inodes, blocks, v);
      if p != 0 {
        assert p in owner && owner[p] == v;
        assert blocks'[p] == blocks[p];
      }
    }
  }

  /** Writing the data block of a place changes bytes of that place only. */
  lemma WriteStep(inodes: seq<Inode>, blocks: Blocks, owner: map<nat, Use>, u: Use, c: Block)
    requires BlocksOk(blocks) && InodesOk(inodes) && Owned(inodes, blocks, owner)
    requires IsPlace(inodes, u) && !u.Indirect? && Ptr(inodes, blocks, u) != 0 && |c| == BLOCK_SIZE
    ensures Ptr(inodes, blocks, u) < |blocks| && BlocksOk(blocks[Ptr(inodes, blocks, u) := c])
    ensures Owned(inodes, blocks[Ptr(inodes, blocks, u) := c], owner)
    ensures forall v :: IsPlace(inodes, v) ==>
      Ptr(inodes, blocks[Ptr(inodes, blocks, u) := c], v) == Ptr(inodes, blocks, v)
    ensures forall i: nat, pos: nat :: IsByte(inodes, i, pos) ==>
      FileByte(inodes, blocks[Ptr(inodes, blocks, u) := c], i, pos)
        == if PlaceAt(i, pos) == u then c[pos % BLOCK_SIZE] else FileByte(inodes, blocks, i, pos)
  {
    hide Ptr, IsPlace, Entry;
    var b := Ptr(inodes, blocks, u);
    assert b in owner && owner[b] == u && b < |blocks|;
    var blocks' := blocks[b := c];
    OwnedFrame(inodes, blocks, blocks', owner);
    forall v | IsPlace(inodes, v) ensures Ptr(inodes, blocks', v) == Ptr(inodes, blocks, v) {
      PtrFrame(inodes, blocks, blocks', owner, v);
    }
    forall i: nat, pos: nat | IsByte(inodes, i, pos)
      ensures FileByte(inodes, blocks', i, pos)
           == if PlaceAt(i, pos) == u then c[pos % BLOCK_SIZE] else FileByte(inodes, blocks, i, pos)
    {
      PlaceOfByte(inodes, i, pos);
      var p := Ptr(inodes, blocks, PlaceAt(i, pos));
      assert p != 0 ==> p in owner && owner[p] == PlaceAt(i, pos);
    }
  }

  /** Unlinking a block, whose contents may have been overwritten since it was freed. */
  lemma UnlinkStep(inodes: seq<Inode>, blocks: Blocks, owner: map<nat, Use>, u: Use, c: Block,
                   inodes': seq<Inode>, blocks': Blocks)
    requires BlocksOk(blocks) && InodesOk(inodes) && Owned(inodes, blocks, owner)
    requires IsPlace(inodes, u) && Ptr(inodes, blocks, u) != 0 && |c| == BLOCK_SIZE
    requires u.Indirect? ==> NoSlots(inodes, blocks, u.ino)
    requires Ptr(inodes, blocks, u) < |blocks| && (u.Slot? ==> 0 < inodes[u.ino].indirect < |blocks|)
    requires inodes' == InstallInode(inodes, u, 0)
    requires blocks' == InstallBlock(inodes, blocks[Ptr(inodes, blocks, u) := c], u, 0)
    ensures BlocksOk(blocks') && InodesOk(inodes') && |blocks'| == |blocks|
    ensures Owned(inodes', blocks', owner - {Ptr(inodes, blocks, u)})
    ensures SamePtrBut(inodes, blocks, inodes', blocks', u, 0)
    ensures forall i: nat, pos: nat :: IsByte(inodes, i, pos) ==> IsByte(inodes', i, pos)
    ensures forall i: nat, pos: nat :: IsByte(inodes, i, pos) ==>
      FileByte(inodes', blocks', i, pos) == if PlaceAt(i, pos) == u then 0 else FileByte(inodes, blocks, i, pos)
    ensures blocks'[Ptr(inodes, blocks, u)] == c
    ensures forall b :: 0 <= b < |blocks| && b !in owner ==> blocks'[b] == blocks[b]
  {
    hide Ptr, IsPlace, Entry, FileByte;
    var b := Ptr(inodes, blocks, u);
    assert b in owner && owner[b] == u;
    var blocks1 := blocks[b := c];
    InstallShape(inodes, u, 0);
    forall v | IsPlace(inodes, v)
      ensures BlocksOk(blocks') && InodesOk(inodes') && IsPlace(inodes', v)
      ensures Ptr(inodes', blocks', v) == if v == u then 0 else Ptr(inodes, blocks, v)
    {
      UnlinkPtr(inodes, blocks, owner, u, c, v);
    }
    UnlinkPtr(inodes, blocks, owner, u, c, u);
    assert SamePtrBut(inodes, blocks, inodes', blocks', u, 0);
    OwnedAfter(inodes, blocks, owner, inodes', blocks', u, 0, owner - {b});
    UnlinkUntouched(inodes, blocks, owner, u, c);
    forall i: nat, pos: nat | IsByte(inodes, i, pos)
      ensures IsByte(inodes', i, pos)
      ensures FileByte(inodes', blocks', i, pos) == if PlaceAt(i, pos) == u then 0 else FileByte(inodes, blocks, i, pos)
    {
      UnlinkByte(inodes, blocks, owner, u, inodes', blocks', i, pos);
    }
  }

  lemma UnlinkPtr(inodes: seq<Inode>, blocks: Blocks, owner: map<nat, Use>, u: Use, c: Block, v: Use)
    requires BlocksOk(blocks) && InodesOk(inodes) && Owned(inodes, blocks, owner)
    requires IsPlace(inodes, u) && Ptr(inodes, blocks, u) != 0 && |c| == BLOCK_SIZE
    requires u.Indirect? ==> NoSlots(inodes, blocks, u.ino)
    requires Ptr(inodes, blocks, u) < |blocks| && (u.Slot? ==> 0 < inodes[u.ino].indirect < |blocks|)
    requires IsPlace(inodes, v)
    ensures var inodes' := InstallInode(inodes, u, 0);
      var blocks' := InstallBlock(inodes, blocks[Ptr(inodes, blocks, u) := c], u, 0);
      BlocksOk(blocks') && InodesOk(inodes') && IsPlace(inodes', v)
      && Ptr(inodes', blocks', v) == if v == u then 0 else Ptr(inodes, blocks, v)
  {
    hide Entry;
    var b := Ptr(inodes, blocks, u);
    assert b in owner && owner[b] == u;
    var blocks1 := blocks[b := c];
    if u.Indirect? {
      if v.Slot? && v.ino != u.ino {
        IndirectOwned(inodes, blocks, owner, v.ino);
      } else if v.Slot? {
        assert Ptr(inodes, blocks, Slot(u.ino, v.k)) == 0;
      }
    } else {
      OwnedFrame(inodes, blocks, blocks1, owner);
      PtrFrame(inodes, blocks, blocks1, owner, v);
      PtrInstall(inodes, blocks1, owner, u, 0, v);
    }
  }

  lemma UnlinkUntouched(inodes: seq<Inode>, blocks: Blocks, owner: map<nat, Use>, u: Use, c: Block)
    requires BlocksOk(blocks) && InodesOk(inodes) && Owned(inodes, blocks, owner)
    requires IsPlace(inodes, u) && Ptr(inodes, blocks, u) != 0 && |c| == BLOCK_SIZE
    requires Ptr(inodes, blocks, u) < |blocks| && (u.Slot? ==> 0 < inodes[u.ino].indirect < |blocks|)
    ensures var b := Ptr(inodes, blocks, u);
      var blocks' := InstallBlock(inodes, blocks[b := c], u, 0);
      |blocks'| == |blocks| && blocks'[b] == c
      && forall d :: 0 <= d < |blocks| && d != b && !(d in owner && owner[d].Indirect?) ==> blocks'[d] == blocks[d]
  {
    hide Entry;
    var b := Ptr(inodes, blocks, u);
    assert b in owner && owner[b] == u;
    IndirectOwned(inodes, blocks, owner, u.ino);
  }

  lemma UnlinkByte(inodes: seq<Inode>, blocks: Blocks, owner: map<nat, Use>, u: Use,
                   inodes': seq<Inode>, blocks': Blocks, i: nat, pos: nat)
    requires BlocksOk(blocks) && InodesOk(inodes) && Owned(inodes, blocks, owner)
    requires BlocksOk(blocks') && InodesOk(inodes') && |blocks'| == |blocks|
    requires IsPlace(inodes, u) && Ptr(inodes, blocks, u) != 0 && SamePtrBut(inodes, blocks, inodes', blocks', u, 0)
    requires forall d :: 0 <= d < |blocks| && d != Ptr(inodes, blocks, u) && !(d in owner && owner[d].Indirect?) ==>
      blocks'[d] == blocks[d]
    requires IsByte(inodes, i, pos)
    ensures IsByte(inodes', i, pos)
    ensures FileByte(inodes', blocks', i, pos) == if PlaceAt(i, pos) == u then 0 else FileByte(inodes, blocks, i, pos)
  {
    hide Ptr, IsPlace, Entry;
    var v := PlaceAt(i, pos);
    PlaceOfByte(inodes, i, pos);
    var p := Ptr(inodes, blocks, v);
    if v != u && p != 0 {
      assert p in owner && owner[p] == v;
      assert blocks'[p] == blocks[p];
    }
  }
}
