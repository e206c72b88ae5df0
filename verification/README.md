# Verified models of a coursework repository

The repository holds programs for an operating-systems course (the Weenix kernel with its user tools, and two
warm-up assignments) and for an artificial-intelligence course. This project models the algorithms at their
core in Dafny and proves what those algorithms are for. Each part is independent of the others.

| part | modules |
|---|---|
| 64-bit division on 32-bit words (Knuth, The Art of Computer Programming, volume 2, section 4.3.1) | `MultiPrecision`, `KnuthDivision` |
| resolution, local search and the seating encoder | `Clauses`, `Resolution`, `Seating`, `WalkSat` |
| buddy page allocator | `BuddyTree`, `BuddyLists`, `PageAllocator` |
| slab allocator | `SlabLayout`, `SlabAllocator` |
| disk-image library of the S5 file system | `Bytes`, `S5Layout`, `S5fs` |
| regular expressions and line moves of the editor ed | `EdPatterns`, `EdSyntax`, `Ed`, `EdWords`, `EdMove` |
| page frames and the shadow daemon | `ShadowChains`, `ShadowDaemon` |
| checkers with alpha-beta search | `Checkers`, `AlphaBeta` |
| A* and uniform-cost search | `AStar`, `UniformCost` |
| token-bucket emulation | `TokenBucket` |
| circular list and its bubble sorts | `RingList`, `ListSort` |
| formatted output and number parsing | `Numerals`, `Printf`, `PrintfLaws` |
| initial user stack (System V ABI, Intel386 supplement, section "Process Initialization") | `Bytes`, `ElfArgs` |

Code that changes things in place is modelled by classes and array methods, proved against functions on
values; what those functions mean is then proved by lemmas. `dafny verify dfyconfig.toml` checks everything.

How the main results are stated:

- Division: `QDivRem` equals the quotient and remainder of the integers for all operands; the digit arrays are
  updated in place, and every word operation wraps as in the program.
- Resolution: the answer is satisfiability, by soundness of each resolvent and by a canonical model of what
  saturates. It terminates, and a no is right, for every sentence; with duplicate literals a yes may be wrong
  (`Misled`), and empty clauses are not looked at (`AnswerMeansSatisfiable`). The encoder makes neither as long
  as there is a table.
- Page allocator: a tree of aligned blocks. Free and allocated blocks partition the pages, each pair bit is the
  exclusive or of the two memberships, and no two buddies stay free, so that the blocks handed out determine
  the free ones (`SameAllocSameFree`). The bits are right for a new group just when its pages are a multiple of
  the largest block, so the theorems are about such groups.
- Slab allocator: free lists are chains through the bufctls in memory; page blocks are those that the page
  allocator would hand out, apart from one another.
- File system: the bytes of a file are those its pointers lead to; a write refines a write to a byte string. A
  file is tidy when nothing is kept beyond its size. A new file is tidy, and writes and emptying keep that, so a
  run of writes from creation on is that run on a byte string (`CreateAndWrite`).
- ed: a pattern is a sequence of items; its paths on a line are its matches; the byte code stands for exactly
  one pattern, and the typed text too. What that comes to for typed words and sets is spelt out in `EdWords`.
- Shadow daemon: a lookup goes down a chain to the first object with the page. `Kept` says that lookups,
  numbers of parents, and settled chains are as before. The behaviour of shadow objects is that of the comments
  at kernel/vm/shadow.c:82-102, since their bodies are not written.
- Searches: costs and utilities are compared with those of all paths or walks, and moves with plain minimax over
  the operations that the rules allow.
- Token bucket: a state machine whose steps are the mutex sections, in any order, with spurious wake-ups; the
  methods of `Emulation` are proved to be those steps. What the steps come to over a run is proved of all
  interleavings.
- Formatted output: the output of a format is a string that `Vsnprintf` is proved to store; `PrintfLaws` says what
  is read back from it, for each conversion, flag, width, precision and qualifier.

Where code and documentation differ, the model follows the code:

- `page_alloc_n` casts its page count to int, so counts from 2^31 on get one page (`AllocN`).
- `_calc_slab_size` keeps the least slab size in an int, so for objects from about 2^31 bytes on it does not panic
  (`CalcSlabSize`, `HugeObject`).
- `_page_split` looks for a larger block again after memory was reclaimed, but not for one of the very order that
  was asked for (`SplitDown`).
- `WALK_SAT` may answer 0 and max_flips as well, and flips once more before it answers -1 (`WalkSat`).
- `slab_allocators_reclaim` says that a negative target means as much as possible; zero means that too.
- The prefix 0X that `%#X` writes is not read back with base 0 (`UpperPrefixRoundTrip`).
- `Inode.truncate` raises an exception for a file of maximum size that has an indirect block (`Truncate`).
- The branch of `uniform_cost_search` that reopens closed nodes, which a comment there questions, never acts
  (`NeverReopened`).

## Model

| member | source | states |
|---|---|---|
| Resolution.PLResolution | Artificial Intelligence/CS561-HW3/csci561_hw3.cpp:487-548 | terminates on every sentence; an answer of no means that the non-empty clauses have no common model; on duplicate-free clauses the answer is yes exactly when they have one; where only tautologies can be derived the answer is yes |
| Resolution.SaturatedSatisfiable | Artificial Intelligence/CS561-HW3/csci561_hw3.cpp:487-548 | refutation completeness: a sentence closed under the program's resolution (first complementary pair only, tautologies dropped) without a derived empty clause has a model |
| Resolution.CanonicalFalsifiesNone | Artificial Intelligence/CS561-HW3/csci561_hw3.cpp:487-548 | the model built atom by atom falsifies no clause of a saturated sentence, whichever complementary pair comes first |
| Resolution.ResolventSound | Artificial Intelligence/CS561-HW3/csci561_hw3.cpp:381-413 | a model of two clauses is a model of what PL_RESOLVE makes of them |
| Resolution.PLResolve | Artificial Intelligence/CS561-HW3/csci561_hw3.cpp:381-413 | reports a clash exactly when the clauses hold complementary literals, and then merges them at the first such pair without repeating a literal |
| Resolution.ResolveAtLiterals | Artificial Intelligence/CS561-HW3/csci561_hw3.cpp:381-413 | the literals of a resolvent are those of both parents without the resolved pair, each once |
| Resolution.Discard | Artificial Intelligence/CS561-HW3/csci561_hw3.cpp:422-447 | discards exactly tautologies and clauses the round already has |
| Resolution.Unions | Artificial Intelligence/CS561-HW3/csci561_hw3.cpp:455-471 | appends just the clauses that are not the same, by sameClause, as one already there, and reports whether there were any |
| Resolution.Round | Artificial Intelligence/CS561-HW3/csci561_hw3.cpp:490-537 | one pass over the pairs not settled before: it finds the empty clause only for an unsatisfiable sentence, and otherwise settles every remaining pair of duplicate-free clauses |
| Clauses.SameSizeIsSetEquality | Artificial Intelligence/CS561-HW3/csci561_hw3.cpp:343-362 | the length-and-containment test of sameClause is equality of literal sets when clauses have no duplicates |
| Resolution.SameClause | Artificial Intelligence/CS561-HW3/csci561_hw3.cpp:343-362 | decides the length-and-containment test |
| Resolution.AnswerMeansSatisfiable | Artificial Intelligence/CS561-HW3/csci561_hw3.cpp:487-548 | the answer is satisfiability of the whole sentence if and only if the sentence has no empty clause or the rest is unsatisfiable |
| Resolution.NoEmptyClause | Artificial Intelligence/CS561-HW3/csci561_hw3.cpp:487-548 | without an empty clause in the sentence, which a caller can see, what is decided is satisfiability of the whole |
| Resolution.DuplicatesHideRefutation | Artificial Intelligence/CS561-HW3/csci561_hw3.cpp:381-413 | [p, p] and [not p, not p] have no common model, yet nothing but tautologies can be derived from them |
| Resolution.Misled | Artificial Intelligence/CS561-HW3/csci561_hw3.cpp:487-548 | so for these clauses, which are not duplicate-free, the procedure answers yes although they are unsatisfiable |
| Seating.CnfConversion | Artificial Intelligence/CS561-HW3/csci561_hw3.cpp:188-288 | for every relationship matrix the models of the sentence are exactly the legal seatings in atoms; the clauses are duplicate-free when the diagonal holds no enemies |
| Seating.LegalModelsAreSeatings | Artificial Intelligence/CS561-HW3/csci561_hw3.cpp:188-288 | a model is legal exactly when it is some seating with one table for each guest, friends together and enemies apart |
| Seating.OneTableClauses | Artificial Intelligence/CS561-HW3/csci561_hw3.cpp:207-222 | the models of the added clauses are those in which no guest has two tables |
| Seating.FriendGroup | Artificial Intelligence/CS561-HW3/csci561_hw3.cpp:224-259 | the models of the added clauses are those that keep every pair of friends together |
| Seating.EnemyGroup | Artificial Intelligence/CS561-HW3/csci561_hw3.cpp:261-287 | the models of the added clauses are those that keep every pair of enemies apart |
| Seating.DecideSeating | Artificial Intelligence/CS561-HW3/csci561_hw3.cpp:487-548 | encoding and resolution together answer true exactly when there is a legal seating, or no table at all |
| WalkSat.WalkSat | Artificial Intelligence/CS561-HW3/csci561_hw3.cpp:698-761 | for every initial model, choice of failing clauses and outcome of the coin: each round flips an atom of a failing clause, the best one in a min-conflicts step; it stops at the first model of all clauses, after at most max_flips flips, and answers -1 exactly when the initial model and all up to that number fail |
| WalkSat.BestLiteral | Artificial Intelligence/CS561-HW3/csci561_hw3.cpp:717-739 | the min-conflicts step finds the first literal whose flip satisfies the most clauses, and leaves the model as it was |
| WalkSat.Satisfy | Artificial Intelligence/CS561-HW3/csci561_hw3.cpp:583-628 | says whether all clauses hold, and otherwise gives one that does not |
| WalkSat.CountSatisfy | Artificial Intelligence/CS561-HW3/csci561_hw3.cpp:645-673 | counts the clauses that hold |
| WalkSat.Flip | Artificial Intelligence/CS561-HW3/csci561_hw3.cpp:633-639 | inverts exactly one atom of the model in place |
| WalkSat.SearchSeating | Artificial Intelligence/CS561-HW3/csci561_hw3.cpp:698-761 | an answer other than -1 is a legal seating, and no model visited before it was one |
| KnuthDivision.QDivRem | Operating Systems/Kernel Assignment/weenix/kernel/util/math.c:144-337 | for all 64-bit operands the quotient and remainder of the integers, and a trap for the divisor zero |
| KnuthDivision.EstimateDigit | Operating Systems/Kernel Assignment/weenix/kernel/util/math.c:268-285 | the corrected estimate is the largest digit that fits the leading three digits by two, although the test is made in wrapping 32-bit words |
| KnuthDivision.EstimateOffByAtMostOne | Operating Systems/Kernel Assignment/weenix/kernel/util/math.c:268-285 | such a digit is the true quotient digit or one too large |
| KnuthDivision.MultiplySubtract | Operating Systems/Kernel Assignment/weenix/kernel/util/math.c:292-298 | subtracts qhat times the divisor from the window modulo its width, in place, and the borrow tells exactly when that went below zero |
| KnuthDivision.BorrowStep | Operating Systems/Kernel Assignment/weenix/kernel/util/math.c:293-295 | the low half of the wrapped word is the digit and the negated high half the borrow, exactly |
| KnuthDivision.AddBack | Operating Systems/Kernel Assignment/weenix/kernel/util/math.c:307-312 | adds the divisor to the window; only the carry out of the top is lost |
| KnuthDivision.Repaired | Operating Systems/Kernel Assignment/weenix/kernel/util/math.c:299-313 | when there was a borrow the digit was one too large, and a single add-back gives the remainder |
| KnuthDivision.DivideStep | Operating Systems/Kernel Assignment/weenix/kernel/util/math.c:260-314 | one round leaves quotient digit and remainder of the window by the divisor |
| KnuthDivision.DivideLoop | Operating Systems/Kernel Assignment/weenix/kernel/util/math.c:252-315 | the rounds keep: dividend = digits so far times divisor, at their weight, plus what is left in the digits of u |
| KnuthDivision.ShiftLeft | Operating Systems/Kernel Assignment/weenix/kernel/util/math.c:126-133 | shl multiplies the number in its digits by a power of two when the top bits are clear |
| KnuthDivision.ShiftRight | Operating Systems/Kernel Assignment/weenix/kernel/util/math.c:316-328 | the final loop divides the number in its digits by the same power of two |
| KnuthDivision.Unscale | Operating Systems/Kernel Assignment/weenix/kernel/util/math.c:238-250 | division of the normalised operands is division of the operands, with the remainder shifted back |
| KnuthDivision.AlgorithmD | Operating Systems/Kernel Assignment/weenix/kernel/util/math.c:240-328 | normalising, the loop over the digits, and denormalising together divide the whole numbers, in place |
| KnuthDivision.ShortDivide | Operating Systems/Kernel Assignment/weenix/kernel/util/math.c:198-225 | division by one digit gives quotient and remainder |
| KnuthDivision.DivDi3 | Operating Systems/Kernel Assignment/weenix/kernel/util/math.c:344-359 | division rounds toward zero, except for the one quotient that does not fit, which wraps to the least number |
| KnuthDivision.UDivDi3 | Operating Systems/Kernel Assignment/weenix/kernel/util/math.c:365-368 | unsigned quotient |
| KnuthDivision.UModDi3 | Operating Systems/Kernel Assignment/weenix/kernel/util/math.c:375-381 | unsigned remainder |
| BuddyTree.TiledSplit | Operating Systems/Kernel Assignment/weenix/kernel/mm/page.c:153-175 | splitting a block keeps the pages covered once each |
| BuddyTree.TiledJoin | Operating Systems/Kernel Assignment/weenix/kernel/mm/page.c:273-294 | joining two buddies keeps the pages covered once each |
| BuddyTree.PartitionCovers | Operating Systems/Kernel Assignment/weenix/kernel/mm/page.c:153-175 | in a partition every page lies in exactly one block |
| BuddyTree.FullyCoalesced | Operating Systems/Kernel Assignment/weenix/kernel/mm/page.c:273-294 | a partition in which no two buddies are blocks has just the top-order blocks |
| BuddyTree.SameAllocSameFree | Operating Systems/Kernel Assignment/weenix/kernel/mm/page.c:273-294 | when no two buddies are free, the blocks handed out determine the free ones |
| BuddyLists.SplitStep | Operating Systems/Kernel Assignment/weenix/kernel/mm/page.c:153-175 | splitting keeps partition, pair bits and free pages, and the bit it flips in the lower map was clear |
| BuddyLists.JoinStep | Operating Systems/Kernel Assignment/weenix/kernel/mm/page.c:273-294 | joining two free buddies keeps partition, pair bits and free pages |
| BuddyLists.AllocStep | Operating Systems/Kernel Assignment/weenix/kernel/mm/page.c:252-269 | unlinking a free block, with one bit flipped, keeps partition and pair bits |
| BuddyLists.ReleaseStep | Operating Systems/Kernel Assignment/weenix/kernel/mm/page.c:304-329 | putting an allocated block back, with one bit flipped, keeps partition and pair bits |
| BuddyLists.ClearBitMeansBuddyFree | Operating Systems/Kernel Assignment/weenix/kernel/mm/page.c:273-294 | the merge test is justified: the pair bit of a free block is clear exactly when its buddy is on the list of its order |
| BuddyLists.AllFreeIsInitial | Operating Systems/Kernel Assignment/weenix/kernel/mm/page.c:273-294 | with nothing allocated and all buddies merged, lists and bits are those of a new group |
| BuddyLists.SameAllocSameLists | Operating Systems/Kernel Assignment/weenix/kernel/mm/page.c:273-329 | two merged states with the same blocks handed out have the same free blocks |
| PageAllocator.BookkeepingFits | Operating Systems/Kernel Assignment/weenix/kernel/mm/page.c:36-67 | the usable pages of a range end before its bitmaps and the group itself, are as many as fit, and each block has a bit |
| PageAllocator.CarveOut | Operating Systems/Kernel Assignment/weenix/kernel/mm/page.c:41-67 | the loop over the orders takes the group and its cleared maps off the end of the range, and rounds down to pages |
| PageAllocator.PageGroup.constructor | Operating Systems/Kernel Assignment/weenix/kernel/mm/page.c:36-91 | a new group has the pages that its own bookkeeping leaves over; it meets the invariant, with all its pages free, when they are a multiple of the largest block; its pair bits describe the lists if and only if they are |
| PageAllocator.PageGroup.Split | Operating Systems/Kernel Assignment/weenix/kernel/mm/page.c:153-175 | one block gives way to its halves, and only they may now be free buddies |
| PageAllocator.PageGroup.SplitTo | Operating Systems/Kernel Assignment/weenix/kernel/mm/page.c:187-226 | halves a larger block down to the order that is asked for |
| PageAllocator.PageGroup.Join | Operating Systems/Kernel Assignment/weenix/kernel/mm/page.c:273-294 | merges upwards until no two buddies below the top order are free, without losing a page |
| PageAllocator.PageGroup.Release | Operating Systems/Kernel Assignment/weenix/kernel/mm/page.c:304-329 | the block leaves the allocated ones, the free pages grow by its size, and all buddies are merged again |
| PageAllocator.PageSystem.AddRange | Operating Systems/Kernel Assignment/weenix/kernel/mm/page.c:112-125 | the new group's pages are added to page_freecount |
| PageAllocator.PageSystem.SplitDown | Operating Systems/Kernel Assignment/weenix/kernel/mm/page.c:186-226 | searches for a larger block, and again each time that memory was reclaimed, with the blocks given back out of every group and counted in page_freecount |
| PageAllocator.PageSystem.AllocOrder | Operating Systems/Kernel Assignment/weenix/kernel/mm/page.c:235-270 | hands out a block that nobody has, retries included, and counts it off page_freecount; no list above a sufficient one is touched, and memory is reclaimed only when no group has a free block that large; fails only when reclaiming then brought no larger one |
| PageAllocator.PageSystem.FreeOrder | Operating Systems/Kernel Assignment/weenix/kernel/mm/page.c:304-329 | takes back exactly the block that was handed out; an address of no group changes nothing |
| PageAllocator.PageSystem.AllocN | Operating Systems/Kernel Assignment/weenix/kernel/mm/page.c:360-373 | the block is the smallest with npages pages when npages is below 2^31 (beyond that the cast makes it one page); panics exactly between the largest block and 2^31; reclaims and fails only when no block that large was free |
| PageAllocator.PageSystem.FreeN | Operating Systems/Kernel Assignment/weenix/kernel/mm/page.c:380-392 | a block from page_alloc_n with the same page count is found and released |
| PageAllocator.PageSystem.AllocAndFree | Operating Systems/Kernel Assignment/weenix/kernel/mm/page.c:360-394 | page_free_n with the count of page_alloc_n gives back the very block: when nothing was reclaimed, blocks handed out, free blocks and page_freecount are as before |
| PageAllocator.PageSystem.AllReturned | Operating Systems/Kernel Assignment/weenix/kernel/mm/page.c:187-329 | after any run that frees all it took, the free lists hold exactly the initial blocks |
| SlabLayout.MostObjects | Operating Systems/Kernel Assignment/weenix/kernel/mm/slab.c:92-115 | the number of objects is the largest that fits, and less than one object's room is wasted |
| SlabLayout.CalcSlabSize | Operating Systems/Kernel Assignment/weenix/kernel/mm/slab.c:117-158 | in 32-bit words: it panics exactly for objects that fit no block, and otherwise finds the order that wastes least, if and only if a slab of one object is smaller than 2^31 bytes; from there on it picks the least block for no object at all, and divides by zero for one size |
| SlabLayout.SmallWords | Operating Systems/Kernel Assignment/weenix/kernel/mm/slab.c:92-115 | below 2^31 bytes no word wraps |
| SlabLayout.HugeObject | Operating Systems/Kernel Assignment/weenix/kernel/mm/slab.c:124-131 | an object of 2^31 bytes fits no block, and minsize is negative |
| SlabLayout.NothingOverlaps | Operating Systems/Kernel Assignment/weenix/kernel/mm/slab.c:202-260 | objects with their bufctls and slab structures never overlap, in any slabs, and lie in the page block of their slab |
| SlabLayout.NewSlabOk | Operating Systems/Kernel Assignment/weenix/kernel/mm/slab.c:211-235 | a slab whose bufctls are linked in a row has an acyclic free list of all its objects |
| SlabLayout.TakeKeeps | Operating Systems/Kernel Assignment/weenix/kernel/mm/slab.c:284-291 | taking the head keeps the free list acyclic, distinct and as long as objects are not in use, with back pointers from those that are |
| SlabLayout.GiveKeeps | Operating Systems/Kernel Assignment/weenix/kernel/mm/slab.c:322-333 | putting an object back keeps the same |
| SlabAllocator.BackPointer | Operating Systems/Kernel Assignment/weenix/kernel/mm/slab.c:328 | the back pointer of an object in use names the one slab it is an object of |
| SlabAllocator.InuseCounts | Operating Systems/Kernel Assignment/weenix/kernel/mm/slab.c:263-308 | s_inuse lies between 0 and the number of objects; it is 0 exactly when all objects are free and the maximum exactly when none is |
| SlabAllocator.DropKeeps | Operating Systems/Kernel Assignment/weenix/kernel/mm/slab.c:360-367 | a slab with s_inuse 0 can go: nothing in use is lost and the other slabs stay in order |
| SlabAllocator.Allocator.LinkObjects | Operating Systems/Kernel Assignment/weenix/kernel/mm/slab.c:211-228 | the loop writes bufctls for the objects of the new block and nothing else, each free and linked to the next |
| SlabAllocator.Allocator.Grow | Operating Systems/Kernel Assignment/weenix/kernel/mm/slab.c:202-260 | puts a slab with all objects free in front of the others, which stay as they are; without a page nothing changes |
| SlabAllocator.Allocator.ObjAlloc | Operating Systems/Kernel Assignment/weenix/kernel/mm/slab.c:263-308 | returns an object that was not in use, and adds just that; fails exactly when all objects are in use and there is no page; grows only then |
| SlabAllocator.Allocator.ObjFree | Operating Systems/Kernel Assignment/weenix/kernel/mm/slab.c:311-338 | the object, found in its slab by the back pointer, is not in use any more, and nothing else changes |
| SlabAllocator.Allocator.ReclaimSlabs | Operating Systems/Kernel Assignment/weenix/kernel/mm/slab.c:354-376 | only slabs without an object in use go, the pages counted are exactly theirs, and it stops as soon as the target is met |
| SlabAllocator.Reclaim | Operating Systems/Kernel Assignment/weenix/kernel/mm/slab.c:347-379 | pages freed plus pages held stay constant, no object in use is lost, and unless the target is met no unused slab is left |
| SlabAllocator.PagesOfBlock | Operating Systems/Kernel Assignment/weenix/kernel/mm/slab.c:362-367 | the pages counted for a slab are those of its block |
| S5fs.Simdisk.FreeBlock | Operating Systems/Kernel Assignment/weenix/tools/fsmaker/api.py:70-79 | pushes a block on the stack of free blocks, into a node of 29 numbers stored in the block itself when the super block is full |
| S5fs.Simdisk.AllocBlock | Operating Systems/Kernel Assignment/weenix/tools/fsmaker/api.py:633-648 | pops the stack; out of space exactly when it is empty |
| S5fs.Simdisk.BlockForWrite | Operating Systems/Kernel Assignment/weenix/tools/fsmaker/api.py:244-262 | finds or links the k-th block of a file, and the indirect block when that is missing, without changing a byte of any file |
| S5fs.Simdisk.WriteFile | Operating Systems/Kernel Assignment/weenix/tools/fsmaker/api.py:232-270 | refines a write to a byte string with holes read as zero, for a file with no rests beyond its size; succeeds exactly when enough blocks are free; conserves free plus owned blocks; leaves every other file's contents alone, also when space runs out |
| S5fs.Simdisk.WriteLoop | Operating Systems/Kernel Assignment/weenix/tools/fsmaker/api.py:237-268 | the loop writes the data block by block, or as much of it as there are blocks, and nothing else |
| S5fs.NewFileTidy | Operating Systems/Kernel Assignment/weenix/tools/fsmaker/api.py:376-382 | a new file is empty and has no rests |
| S5fs.Simdisk.InitFile | Operating Systems/Kernel Assignment/weenix/tools/fsmaker/api.py:376-382 | makes a free inode an empty file without rests, and leaves all other files and all blocks alone |
| S5fs.Simdisk.WriteRun | Operating Systems/Kernel Assignment/weenix/tools/fsmaker/api.py:232-270 | any run of writes refines the same run on a byte string, unless space runs out or a write exceeds the greatest size |
| S5fs.Simdisk.CreateAndWrite | Operating Systems/Kernel Assignment/weenix/tools/fsmaker/api.py:232-270 | a freshly created file holds what the run of writes makes of the empty string |
| S5fs.Simdisk.ReadFile | Operating Systems/Kernel Assignment/weenix/tools/fsmaker/api.py:203-230 | the bytes of the file from the offset on, as many as asked for or as there are up to the size and the greatest size, through direct, indirect and missing blocks |
| S5fs.Simdisk.WriteThenRead | Operating Systems/Kernel Assignment/weenix/tools/fsmaker/api.py:203-270 | what a write that succeeds has written is read back, in any file |
| S5fs.LastWriteWins | Operating Systems/Kernel Assignment/weenix/tools/fsmaker/api.py:232-270 | after a run of writes a byte is that of the last write that covers it |
| S5fs.Unwritten | Operating Systems/Kernel Assignment/weenix/tools/fsmaker/api.py:203-270 | a byte that no write covers is what it was, or zero |
| S5fs.WritesLength | Operating Systems/Kernel Assignment/weenix/tools/fsmaker/api.py:269-270 | the file is as long as it was, or as the farthest write needs |
| S5fs.Simdisk.Truncate | Operating Systems/Kernel Assignment/weenix/tools/fsmaker/api.py:272-303 | empties the file and frees its blocks, conserving free plus owned blocks; raises exactly for a file of maximum size with an indirect block; a file without holes gives its indirect block back too |
| Bytes.ByteOrder | Operating Systems/Kernel Assignment/weenix/tools/fsmaker/api.py:255-262 | the four bytes of a block number stand in the order of their weights, the least first |
| S5Layout.LinkStep | Operating Systems/Kernel Assignment/weenix/tools/fsmaker/api.py:244-262 | linking a zeroed free block where a hole was changes no byte of any file |
| S5Layout.WriteStep | Operating Systems/Kernel Assignment/weenix/tools/fsmaker/api.py:262-266 | writing into a data block changes bytes of its own place only |
| S5Layout.UnlinkStep | Operating Systems/Kernel Assignment/weenix/tools/fsmaker/api.py:284-294 | unlinking a block clears its own place only, whatever the free list writes into the block |
| S5Layout.PtrInstall | Operating Systems/Kernel Assignment/weenix/tools/fsmaker/api.py:138-158 | storing one block number changes one pointer, although indirect pointers live in blocks |
| S5Layout.ChainFrame | Operating Systems/Kernel Assignment/weenix/tools/fsmaker/api.py:633-648 | the chain of free-block nodes depends on its own blocks only |
| S5fs.WrittenContents | Operating Systems/Kernel Assignment/weenix/tools/fsmaker/api.py:232-270 | bytes written block by block add up to the write of a byte string |
| S5fs.OthersKept | Operating Systems/Kernel Assignment/weenix/tools/fsmaker/api.py:232-270 | pointers and bytes kept outside one file mean that every other file has its contents |
| EdPatterns.PathsAreMatches | Operating Systems/Kernel Assignment/weenix/user/bin/ed.c:1348-1428 | the matcher's paths from one position to another exist exactly when the text between is a string of the pattern's language (and the line ends there, for $) |
| EdPatterns.BestUnique | Operating Systems/Kernel Assignment/weenix/user/bin/ed.c:1348-1428 | there is one greedy path at most |
| EdPatterns.BestStep | Operating Systems/Kernel Assignment/weenix/user/bin/ed.c:1415-1423 | trying the ends of a star from the longest down gives the greedy path of the whole from that of the rest |
| EdSyntax.ParseShow | Operating Systems/Kernel Assignment/weenix/user/bin/ed.c:1188-1296 | every well-formed pattern can be typed, and reading gives it back |
| EdSyntax.ParseOk | Operating Systems/Kernel Assignment/weenix/user/bin/ed.c:1188-1296 | only well-formed patterns are read |
| EdSyntax.NestedGroups | Operating Systems/Kernel Assignment/weenix/user/bin/ed.c:1228-1242 | groups that close from the inside are opened and closed once each, in the order of their numbers |
| Ed.Editor.Compile | Operating Systems/Kernel Assignment/weenix/user/bin/ed.c:1188-1296 | accepts exactly the texts that are patterns short enough for expbuf, and leaves their byte code there; otherwise it clears expbuf or stops |
| Ed.Editor.CompileLoop | Operating Systems/Kernel Assignment/weenix/user/bin/ed.c:1215-1292 | reads a pattern to its delimiter and accepts it exactly when it is one and its code fits |
| Ed.Editor.CompileItem | Operating Systems/Kernel Assignment/weenix/user/bin/ed.c:1218-1291 | one round reads one item or star, and appends its code |
| Ed.Editor.CompileEscape | Operating Systems/Kernel Assignment/weenix/user/bin/ed.c:1227-1247 | numbers groups as they open and closes the innermost; fails exactly for a sixth group, a close without open, or a newline |
| Ed.Editor.CompileClass | Operating Systems/Kernel Assignment/weenix/user/bin/ed.c:1268-1285 | stores the set with its count, unless it is unfinished or too long |
| Ed.Editor.AddStar | Operating Systems/Kernel Assignment/weenix/user/bin/ed.c:1256-1260 | a star turns the last item into a starred one, and fails exactly for a group mark |
| Ed.Editor.Advance | Operating Systems/Kernel Assignment/weenix/user/bin/ed.c:1348-1428 | finds the greedy path from a position if there is any path, with loc2 its end and the group bounds those of that path |
| Ed.Editor.BackOff | Operating Systems/Kernel Assignment/weenix/user/bin/ed.c:1415-1423 | trying the ends of a starred item from the longest down finds the greedy path of the whole if there is any, and never ends an item where the last substitution ended |
| Ed.Editor.Execute | Operating Systems/Kernel Assignment/weenix/user/bin/ed.c:1298-1345 | finds the leftmost start and its greedy path, or nothing exactly when no start has a path; the first-character test does not change that; the line zero, and going on with a pattern for the start of a line, find nothing |
| Ed.Editor.Search | Operating Systems/Kernel Assignment/weenix/user/bin/ed.c:1188-1345 | from typed text to match: a pattern that is accepted is found exactly when a part of the line is a string of its language, from the leftmost start to the end of the greedy path, with the group bounds of that path |
| EdWords.SearchWord | Operating Systems/Kernel Assignment/weenix/user/bin/ed.c:1188-1345 | a typed word, whose dots stand for any character, is found at the first place in the line where it stands, or at its start only with ^, if there is one |
| EdWords.SearchSet | Operating Systems/Kernel Assignment/weenix/user/bin/ed.c:1188-1345 | a typed set finds the first character in it, or not in it when negated; starred it matches as many as stand at the start of the line |
| Ed.Editor.InClass | Operating Systems/Kernel Assignment/weenix/user/bin/ed.c:1430-1444 | says whether the character is in the set, negated or not, and never for the end of the line |
| Ed.FindsUnique | Operating Systems/Kernel Assignment/weenix/user/bin/ed.c:1298-1345 | what a search finds is determined by pattern and line |
| Ed.FindsMatch | Operating Systems/Kernel Assignment/weenix/user/bin/ed.c:1298-1345 | a search of a fresh line succeeds exactly when a part of the line is a string of the language; it starts at the leftmost such part |
| EdMove.ReverseSwaps | Operating Systems/Kernel Assignment/weenix/user/bin/ed.c:1130-1161 | reversing two neighbouring parts and then both together swaps them |
| EdMove.SwapMoves | Operating Systems/Kernel Assignment/weenix/user/bin/ed.c:1130-1161 | swapping the block with the lines between it and its destination moves it, up or down |
| EdMove.MovedParts | Operating Systems/Kernel Assignment/weenix/user/bin/ed.c:1130-1161 | the block follows the line it was moved after, and the other lines stand as they stood |
| EdMove.Reverse | Operating Systems/Kernel Assignment/weenix/user/bin/ed.c:1163-1177 | reverses a range of lines in place |
| EdMove.Move | Operating Systems/Kernel Assignment/weenix/user/bin/ed.c:1130-1161 | the block ends up after its destination line, all else in order; dot is its last line; fails exactly for a destination inside the block |
| ShadowChains.MigrateKeepsSight | Operating Systems/Kernel Assignment/weenix/kernel/mm/pframe.c:322-342 | moving a page to the only parent, or dropping it because the parent has a newer one, changes no lookup but those that start at the emptied object |
| ShadowChains.UnlinkKeepsSight | Operating Systems/Kernel Assignment/weenix/kernel/vm/shadowd.c:86-91 | taking an object without pages out from under its only parent changes no lookup |
| ShadowChains.UnlinkKeepsUppers | Operating Systems/Kernel Assignment/weenix/kernel/vm/shadowd.c:86-91 | all other objects keep their number of parents |
| ShadowChains.SettledUnlink | Operating Systems/Kernel Assignment/weenix/kernel/vm/shadowd.c:54-102 | chains without single-parent intermediates stay so when another chain is shortened |
| ShadowDaemon.Vm.GetResident | Operating Systems/Kernel Assignment/weenix/kernel/mm/pframe.c:190-211 | the hash lookup finds exactly the resident page of that object and number, and moves it to the end of the allocated list if it is not pinned |
| ShadowDaemon.Vm.Alloc | Operating Systems/Kernel Assignment/weenix/kernel/mm/pframe.c:227-256 | a new frame is resident, hashed, listed and counted; without memory nothing changes |
| ShadowDaemon.Vm.Clean | Operating Systems/Kernel Assignment/weenix/kernel/mm/pframe.c:419-448 | the page stays dirty only if cleaning failed |
| ShadowDaemon.Vm.Free | Operating Systems/Kernel Assignment/weenix/kernel/mm/pframe.c:459-491 | the page leaves hash chain, resident list and allocated list, and its object loses one reference |
| ShadowDaemon.Vm.Migrate | Operating Systems/Kernel Assignment/weenix/kernel/mm/pframe.c:322-342 | hash index, resident lists, counters and references agree after the page has changed its object or been freed |
| ShadowDaemon.Vm.CollapseChain | Operating Systems/Kernel Assignment/weenix/kernel/vm/shadowd.c:64-102 | for one chain: lookups of all remaining objects and their numbers of parents are kept, and no intermediate object with a single parent is left |
| ShadowDaemon.Vm.Pass | Operating Systems/Kernel Assignment/weenix/kernel/vm/shadowd.c:54-102 | a whole pass keeps every lookup from every remaining object, drops none that is referred to from outside, keeps refcount = resident pages + parents, and settles every visited chain |
| Checkers.CheckIsLegal | Artificial Intelligence/CS561-HW4/csci561_hw4.cpp:526-645 | the four directional tests find a jump or move exactly when the rules allow it |
| Checkers.OpsLegal | Artificial Intelligence/CS561-HW4/csci561_hw4.cpp:650-711 | the operations generated are exactly the legal ones |
| Checkers.LegalMeans | Artificial Intelligence/CS561-HW4/csci561_hw4.cpp:526-646 | legal is one or two steps along a diagonal to an empty dark square, never backwards but for kings, and a jump passes over an opponent |
| Checkers.OperatorsLegal | Artificial Intelligence/CS561-HW4/csci561_hw4.cpp:904-910 | what can be done are the jumps, and the moves only when there is no jump |
| Checkers.OpsAscend | Artificial Intelligence/CS561-HW4/csci561_hw4.cpp:650-711 | the operations come piece by piece, row by row from the left, forwards before backwards and right before left, none twice |
| Checkers.ApplyLegal | Artificial Intelligence/CS561-HW4/csci561_hw4.cpp:868-880 | a legal operation keeps the player's own pieces and takes exactly the piece it jumps over |
| AlphaBeta.ValueOverIsBest | Artificial Intelligence/CS561-HW4/csci561_hw4.cpp:894-966 | plain minimax is the greatest successor value for one player and the least for the other |
| AlphaBeta.OperatorsEmpty | Artificial Intelligence/CS561-HW4/csci561_hw4.cpp:375-521 | a player has no operation to generate exactly when none of his pieces passes any test |
| AlphaBeta.TerminalTest | Artificial Intelligence/CS561-HW4/csci561_hw4.cpp:375-521 | decides terminal boards, which are those without pieces of a side or without operations, and gives their utility |
| AlphaBeta.WinAndLoss | Artificial Intelligence/CS561-HW4/csci561_hw4.cpp:375-521 | a side without pieces has lost, and a side that is to move and cannot; otherwise the game goes on, and neither has won |
| AlphaBeta.CaptureCounts | Artificial Intelligence/CS561-HW4/csci561_hw4.cpp:346-370 | a capture by Alice raises the utility by the worth of the piece, one by Bill lowers it, and a move does not change it |
| AlphaBeta.Generate | Artificial Intelligence/CS561-HW4/csci561_hw4.cpp:650-711 | the loops generate the operations in board order, and report whether there are any |
| AlphaBeta.Candidates | Artificial Intelligence/CS561-HW4/csci561_hw4.cpp:904-910 | the candidates are exactly the legal jumps, or, when there is none, the legal moves, in the order in which the board is scanned |
| AlphaBeta.MinmaxValue | Artificial Intelligence/CS561-HW4/csci561_hw4.cpp:894-966 | for every board, depth bound and window: the minimax value inside the window, and on the right side of the window otherwise |
| AlphaBeta.Decide | Artificial Intelligence/CS561-HW4/csci561_hw4.cpp:975-1003 | picks the first operation of greatest minimax value, and none exactly when every operation is worth NEGATIVE_INFINITY; it is legal, and a jump whenever Alice has one |
| AlphaBeta.Game.ApplyMovement | Artificial Intelligence/CS561-HW4/csci561_hw4.cpp:868-880 | changes the board in place as the operation says: the piece moves, and a piece that is jumped over goes |
| AStar.Search | Artificial Intelligence/CS561-HW2/main.py:39-51 | terminates and returns a simple path, or None exactly when there is none, whatever the heuristic; with an admissible one the path is of least cost, no consistency is needed, and no node is expanded whose cost and estimate exceed the least cost |
| AStar.PoppedIsBest | Artificial Intelligence/CS561-HW2/main.py:45-48 | cost and estimate of a node that is popped do not exceed the cost of any path to the goal, so a goal node is best |
| AStar.ChildOk | Artificial Intelligence/CS561-HW2/main.py:13-16 | children extend the path of their parent without repeating a name, at the cost of the path |
| AStar.ExpandOne | Artificial Intelligence/CS561-HW2/main.py:49-51 | expanding a node keeps a beginning of every goal path on the heap |
| AStar.CostSplit | Artificial Intelligence/CS561-HW2/main.py:7-16 | the cost of a path is that of its beginning and its rest |
| AStar.Lighter | Artificial Intelligence/CS561-HW2/main.py:45-51 | a node outweighs all its children, so the search ends |
| UniformCost.Search | Artificial Intelligence/CS561-HW1/csci561_hw1.cpp:313-369 | terminates with every reachable node closed once, in order of cost, at its least distance |
| UniformCost.Frontier | Artificial Intelligence/CS561-HW1/csci561_hw1.cpp:313-369 | every walk ends in a closed node, or there is an open node no dearer than the walk |
| UniformCost.FirstIsDistance | Artificial Intelligence/CS561-HW1/csci561_hw1.cpp:331-338 | the node taken from the open list is at its distance |
| UniformCost.NeverReopened | Artificial Intelligence/CS561-HW1/csci561_hw1.cpp:240-253 | an arc to a closed node never makes it cheaper, so the reopening branch is dead |
| UniformCost.FollowArc | Artificial Intelligence/CS561-HW1/csci561_hw1.cpp:346-359 | after an arc the closed list is the same, and every arc so far is accounted for |
| UniformCost.SortInsert | Artificial Intelligence/CS561-HW1/csci561_hw1.cpp:205-214 | the list stays sorted, with just the new entry added |
| UniformCost.ReplaceInsert | Artificial Intelligence/CS561-HW1/csci561_hw1.cpp:225-238 | a dearer entry gives way to a cheaper one in its sorted place, any other leaves the list alone |
| UniformCost.Reopen | Artificial Intelligence/CS561-HW1/csci561_hw1.cpp:240-253 | moves a dearer closed entry back to the open list, and does nothing otherwise |
| UniformCost.ExistList | Artificial Intelligence/CS561-HW1/csci561_hw1.cpp:196-203 | says whether the node is on the list |
| TokenBucket.StepKeeps | Operating Systems/Warmup Assignment/Warmup Assignment 2/warmup2.c:421-504 | every mutex section keeps: arrival order without loss or duplicate among the packets that fit the bucket, guard = length of Q2, 0 <= bucket <= B, tokens conserved, and no lost wake-up |
| TokenBucket.RunKeeps | Operating Systems/Warmup Assignment/Warmup Assignment 2/warmup2.c:421-504 | in every interleaving every state satisfies all of that |
| TokenBucket.FromTheStart | Operating Systems/Warmup Assignment/Warmup Assignment 2/warmup2.c:421-504 | whatever the interleaving from the start on, all of that holds, and when the server stops it has served exactly the packets that fit, in order |
| TokenBucket.Progress | Operating Systems/Warmup Assignment/Warmup Assignment 2/warmup2.c:747-762 | a waiting server has an empty Q2 and a running token thread; when the server stops all packets that fit have been served, in order; until then some thread can go on |
| TokenBucket.HeadStep | Operating Systems/Warmup Assignment/Warmup Assignment 2/warmup2.c:467-503 | each token brings the head of Q1 one closer or lets it pass, and nothing else delays it |
| TokenBucket.HeadLeaves | Operating Systems/Warmup Assignment/Warmup Assignment 2/warmup2.c:467-503 | the head of Q1 leaves within max(1, tokens_need - bucket) token arrivals, in every interleaving |
| TokenBucket.PassedGrowsOver | Operating Systems/Warmup Assignment/Warmup Assignment 2/warmup2.c:551-649 | what has passed Q1 never comes back and keeps its order |
| TokenBucket.OnlyFullDrops | Operating Systems/Warmup Assignment/Warmup Assignment 2/warmup2.c:447-463 | a token is dropped exactly when it comes to a full bucket; any other is in the bucket, or has paid for the packet that passed |
| TokenBucket.BucketFills | Operating Systems/Warmup Assignment/Warmup Assignment 2/warmup2.c:447-463 | while no packet leaves Q1, the bucket holds min(B, bucket + k) tokens after k token arrivals, in every interleaving |
| TokenBucket.PaidAtOnce | Operating Systems/Warmup Assignment/Warmup Assignment 2/warmup2.c:615-633 | a packet that comes to an empty Q1 and whose tokens are there passes at once |
| TokenBucket.EagerExactly | Operating Systems/Warmup Assignment/Warmup Assignment 2/warmup2.c:467-504 | no packet ever waits in Q1 while the bucket has its tokens, in any interleaving, if and only if no packet that needs none comes after one that needs some |
| TokenBucket.Emulation.TokenArrival | Operating Systems/Warmup Assignment/Warmup Assignment 2/warmup2.c:421-504 | the section, run on the queues and counters, is the token step |
| TokenBucket.Emulation.PacketPeek | Operating Systems/Warmup Assignment/Warmup Assignment 2/warmup2.c:553-567 | the first section of the packet thread is its peek step |
| TokenBucket.Emulation.PacketArrival | Operating Systems/Warmup Assignment/Warmup Assignment 2/warmup2.c:578-648 | the second section is its arrival step, dropping packets larger than the bucket |
| TokenBucket.Emulation.ServerSection | Operating Systems/Warmup Assignment/Warmup Assignment 2/warmup2.c:749-778 | the server's section is its serving step |
| TokenBucket.Emulation.ServiceEnd | Operating Systems/Warmup Assignment/Warmup Assignment 2/warmup2.c:787-797 | the end of a service, which the server alone sees, is its finishing step: the packet joins the collected ones |
| RingList.List.Append | Operating Systems/Warmup Assignment/Warmup Assignment 1/my402list.c:103-130 | adds the object at the end of the sequence, next and prev inverse all round, and num_members exact; without memory nothing changes |
| RingList.List.Prepend | Operating Systems/Warmup Assignment/Warmup Assignment 1/my402list.c:74-101 | the same at the front |
| RingList.List.InsertAfter | Operating Systems/Warmup Assignment/Warmup Assignment 1/my402list.c:27-45 | inserts after an element, or at the end |
| RingList.List.InsertBefore | Operating Systems/Warmup Assignment/Warmup Assignment 1/my402list.c:7-25 | inserts before an element, or at the front |
| RingList.List.Unlink | Operating Systems/Warmup Assignment/Warmup Assignment 1/my402list.c:62-72 | removes just that element |
| RingList.List.UnlinkAll | Operating Systems/Warmup Assignment/Warmup Assignment 1/my402list.c:47-60 | leaves the empty list |
| RingList.List.Find | Operating Systems/Warmup Assignment/Warmup Assignment 1/my402list.c:132-142 | the first element with the object, or none exactly when it is not there |
| RingList.List.Next | Operating Systems/Warmup Assignment/Warmup Assignment 1/my402list.c:152-158 | the next element, or none at the end |
| RingList.List.Prev | Operating Systems/Warmup Assignment/Warmup Assignment 1/my402list.c:144-150 | the previous element, or none at the start |
| RingList.List.First | Operating Systems/Warmup Assignment/Warmup Assignment 1/my402list.c:168-174 | the first element, or none |
| RingList.List.Last | Operating Systems/Warmup Assignment/Warmup Assignment 1/my402list.c:160-166 | the last element, or none |
| ListSort.BubbleForward | Operating Systems/Warmup Assignment/Warmup Assignment 1/listtest.c:163-190 | unlinking two elements and putting their objects back the other way round swaps the two objects |
| ListSort.BubbleBackward | Operating Systems/Warmup Assignment/Warmup Assignment 1/listtest.c:221-248 | the same, from the other end |
| ListSort.BubbleSortForward | Operating Systems/Warmup Assignment/Warmup Assignment 1/listtest.c:192-219 | an ascending permutation |
| ListSort.BubbleSortBackward | Operating Systems/Warmup Assignment/Warmup Assignment 1/listtest.c:250-277 | an ascending permutation |
| ListSort.StepUp | Operating Systems/Warmup Assignment/Warmup Assignment 1/listtest.c:203-212 | after each comparison the element at hand is the greatest so far |
| ListSort.SwapIs | Operating Systems/Warmup Assignment/Warmup Assignment 1/listtest.c:163-190 | two removals and two insertions at the right places are a swap |
| Numerals.DigitsRead | Operating Systems/Kernel Assignment/weenix/kernel/util/printf.c:114-137 | reading digits undoes writing them, in 64-bit arithmetic |
| Numerals.StrtoullDigits | Operating Systems/Kernel Assignment/weenix/kernel/util/printf.c:114-137 | every unsigned 64-bit number is read back in its base, and endp stands behind it |
| Numerals.StrtollDigits | Operating Systems/Kernel Assignment/weenix/kernel/util/printf.c:145-150 | every signed 64-bit number is read back, the least included |
| Numerals.StrtoullPrefixed | Operating Systems/Kernel Assignment/weenix/kernel/util/printf.c:114-137 | base 0 reads numbers with prefix 0x or 0, and decimals |
| Numerals.UpperPrefixLost | Operating Systems/Kernel Assignment/weenix/kernel/util/printf.c:114-137 | base 0 does not understand the prefix 0X that %#X writes: it reads 0 and stops |
| Numerals.DigitTables | Operating Systems/Kernel Assignment/weenix/kernel/util/printf.c:173-177 | digits are the characters of the two tables and are worth their places |
| Numerals.ReadsTables | Operating Systems/Kernel Assignment/weenix/kernel/util/printf.c:129-133 | the characters read in a base are the first ones of the tables |
| Numerals.OneMoreDigit | Operating Systems/Kernel Assignment/weenix/kernel/util/printf.c:129-133 | one more digit multiplies by the base and adds its worth, modulo 2^64 |
| Printf.UnsignedRoundTrip | Operating Systems/Kernel Assignment/weenix/kernel/util/printf.c:169-268 | simple_strtoull undoes number for the 64 bits of every value, in bases 2 to 16 |
| Printf.SignedRoundTrip | Operating Systems/Kernel Assignment/weenix/kernel/util/printf.c:169-268 | simple_strtoll undoes number for every signed value, in bases 2 to 16 |
| Printf.PrefixedRoundTrip | Operating Systems/Kernel Assignment/weenix/kernel/util/printf.c:169-268 | with the lower-case prefix also base 0 does |
| Printf.SignedPrefixedRoundTrip | Operating Systems/Kernel Assignment/weenix/kernel/util/printf.c:145-150 | simple_strtoll with base 0 undoes number for every signed value with the lower-case prefix, the sign coming first |
| Printf.UpperPrefixRoundTrip | Operating Systems/Kernel Assignment/weenix/kernel/util/printf.c:169-268 | with base 0 a hexadecimal number with prefix is read back, signed or not, if and only if the prefix is in lower case or the number is zero |
| Printf.NumberWidth | Operating Systems/Kernel Assignment/weenix/kernel/util/printf.c:169-268 | the field is as wide as asked for, or as its sign, prefix and digits need |
| Printf.Number | Operating Systems/Kernel Assignment/weenix/kernel/util/printf.c:169-268 | writes sign, prefix, padding and digits in their places, whatever the flags |
| Printf.FillDigits | Operating Systems/Kernel Assignment/weenix/kernel/util/printf.c:203-215 | the 66 characters of tmp are enough, and read backwards they are the digits |
| Printf.SimpleStrtoull | Operating Systems/Kernel Assignment/weenix/kernel/util/printf.c:114-137 | the loop computes the value and the end in wrapping arithmetic |
| Printf.Buffer.Put | Operating Systems/Kernel Assignment/weenix/kernel/util/printf.c:226-230 | a character beyond the end is counted and not stored |
| Printf.Vsnprintf | Operating Systems/Kernel Assignment/weenix/kernel/util/printf.c:280-510 | for every buffer size: a NUL-terminated prefix of the unbounded output is stored, nothing beyond the end, the full length returned, and %n stores what it should where it should |
| Printf.StoresPrefix | Operating Systems/Kernel Assignment/weenix/kernel/util/printf.c:429-442 | what %n stores is the length of the output of the text before it |
| Printf.StoresInOrder | Operating Systems/Kernel Assignment/weenix/kernel/util/printf.c:429-442 | what %n stores never decreases along the format, and never exceeds the length of the output |
| PrintfLaws.DirectiveRead | Operating Systems/Kernel Assignment/weenix/kernel/util/printf.c:313-367 | flags, width, precision and qualifier are read as they are written, for all of them |
| PrintfLaws.IntegerDirective | Operating Systems/Kernel Assignment/weenix/kernel/util/printf.c:451-499 | an integer conversion prints its argument with the base, sign and letters of its character, and the format goes on behind it |
| PrintfLaws.UnsignedFormat | Operating Systems/Kernel Assignment/weenix/kernel/util/printf.c:451-499 | %o, %x, %X and %u print the argument modulo the size of its type, in bases 8, 16, 16 and 10, and simple_strtoull reads it back; h is 16 bits, ll, L and q 64, all others 32 |
| PrintfLaws.SignedFormat | Operating Systems/Kernel Assignment/weenix/kernel/util/printf.c:461-497 | %d and %i print the value of the type that the argument stands for, the argument itself when it is one, and simple_strtoll reads it back; %Zd alone takes it without sign |
| PrintfLaws.MinusFormat | Operating Systems/Kernel Assignment/weenix/kernel/util/printf.c:183-200 | a signed number starts with a minus sign exactly when it is negative |
| PrintfLaws.FlagsFormat | Operating Systems/Kernel Assignment/weenix/kernel/util/printf.c:183-200 | + and space put a sign before numbers that have none, + first; # a prefix before octal and hexadecimal ones |
| PrintfLaws.FieldFormat | Operating Systems/Kernel Assignment/weenix/kernel/util/printf.c:216-266 | a width fills up with spaces in front, with - behind, with 0 alone by zeros after sign and prefix, and cuts nothing |
| PrintfLaws.PrecisionFormat | Operating Systems/Kernel Assignment/weenix/kernel/util/printf.c:216-266 | a precision fills up the digits with zeros |
| PrintfLaws.ZerosFormat | Operating Systems/Kernel Assignment/weenix/kernel/util/printf.c:216-266 | numbers filled up with zeros are read back as those that are not |
| PrintfLaws.StarFormat | Operating Systems/Kernel Assignment/weenix/kernel/util/printf.c:325-337 | a width from the arguments acts as a written one, a negative one with the flag - |
| PrintfLaws.DotStarFormat | Operating Systems/Kernel Assignment/weenix/kernel/util/printf.c:339-352 | a precision from the arguments acts as a written one, a negative one as 0 |
| PrintfLaws.CharFormat | Operating Systems/Kernel Assignment/weenix/kernel/util/printf.c:373-390 | %c prints the low byte, in its field |
| PrintfLaws.StringFormat | Operating Systems/Kernel Assignment/weenix/kernel/util/printf.c:392-416 | %s prints as many characters as the precision allows, in its field, and <NULL> for a null pointer |
| PrintfLaws.PointerFormat | Operating Systems/Kernel Assignment/weenix/kernel/util/printf.c:418-426 | %p prints eight hexadecimal digits, which are read back as the address |
| PrintfLaws.OtherFormats | Operating Systems/Kernel Assignment/weenix/kernel/util/printf.c:444-479 | %% prints one sign, and what is no conversion is printed as it stands |
| PrintfLaws.FormatGoesOn | Operating Systems/Kernel Assignment/weenix/kernel/util/printf.c:306-312 | what is no directive is printed as it stands, before the rest of the format |
| ElfArgs.CalcArgSize | Operating Systems/Kernel Assignment/weenix/kernel/api/elf32.c:303-347 | the size of argc, three pointers, the vectors with their ends, all strings with theirs, and a header table for each AT_PHDR |
| ElfArgs.LoadArgs | Operating Systems/Kernel Assignment/weenix/kernel/api/elf32.c:360-438 | in a buffer of exactly that size, wherever it goes: following the pointers gives back argc, all strings, the vectors and the header table, and the regions follow one another without gap or overlap |
| ElfArgs.StringsApart | Operating Systems/Kernel Assignment/weenix/kernel/api/elf32.c:389-415 | the strings of a vector do not overlap, and each ends where the next begins |
| ElfArgs.CopyVector | Operating Systems/Kernel Assignment/weenix/kernel/api/elf32.c:389-401 | writes a vector and its strings, and nothing outside them |
| ElfArgs.CopyAux | Operating Systems/Kernel Assignment/weenix/kernel/api/elf32.c:417-431 | writes the auxiliary vector and the header table, and nothing outside them |
| ElfArgs.VectorBack | Operating Systems/Kernel Assignment/weenix/kernel/api/elf32.c:389-401 | from the bytes of a vector and its strings the strings are read back |
| ElfArgs.AuxBack | Operating Systems/Kernel Assignment/weenix/kernel/api/elf32.c:417-431 | from the bytes of the auxiliary vector its entries are read back, AT_PHDR leading to the header table |

## Left out

- Resolution.PLResolution: for clauses with duplicate literals a yes is not characterised further; printing and the experiments are left out.
- WalkSat.WalkSat: initial model, failing clauses and literals of random steps are arbitrary, and the outcomes of the coin a parameter; their probabilities are not modelled.
- KnuthDivision.QDivRem: the trap for a zero divisor is an outcome `None`; log2 is not modelled.
- PageAllocator.PageGroup.constructor: addresses count pages; groups with leftover tail blocks are only shown to have wrong pair bits, and an empty range, which has no room for the group, is not added.
- PageAllocator.PageSystem.AllocOrder: which blocks come back when memory is reclaimed is a parameter; what other threads allocate meanwhile is not modelled.
- PageAllocator.PageSystem.FreeN: callers give back a block with the page count they asked for, as the interface requires.
- SlabAllocator.Allocator.ObjAlloc: red zones, hooks and tracing are not modelled; kmalloc and kfree only choose an allocator.
- SlabAllocator.Reclaim: page blocks go back to the page allocator by address only; the two allocators are not linked.
- S5fs.Simdisk.WriteFile: the super block and inode fields are typed values and not bytes, while indirect blocks and free-block nodes are bytes; a file that a failed write leaves untidy is covered by the byte-level clauses only.
- S5fs.Simdisk.Truncate: truncating to a size other than zero, and untidy files; formatting, inode allocation and directories are not modelled.
- Ed.Editor.Compile: the error macro does not end the program in the source; what happens after a star on a group mark or an empty pattern without predecessor is the outcome `Stuck`; characters are 7 bits, and command lines end in a newline.
- EdMove.Move: the copying t command and the temporary file are not modelled.
- ShadowDaemon.Vm.Pass: blocking, busy pages and the translation buffer are not modelled; pages of shadow objects are dirty and pinned once, and shadow objects have at most two parents, as the code asserts.
- ShadowDaemon.Vm.Put: releases only objects without resident pages, since the pass has emptied them; objects and frames are named by numbers.
- AlphaBeta.Decide: the search bound is a parameter; MAX_SEARCH_DEPTH is one value of it; board files and printing are left out.
- AStar.Search: costs are real numbers, not floating point; edges lead to other names; greedy search and the C++ version promise no least cost.
- UniformCost.Search: integer costs do not overflow, and arcs lead to other nodes; path printing, breadth-first and depth-first search are left out.
- TokenBucket.StepKeeps: signals, wall-clock times and statistics are not modelled; the token counter is raised just before its section, with it here.
- RingList.List.Append: memory that malloc does not give is a parameter.
- Printf.Vsnprintf: arguments missing or of another type, widths beyond an int, and a %n that points into the buffer are not modelled; sscanf is left out.
- ElfArgs.LoadArgs: the copy to user space is not modelled; header tables of several AT_PHDR entries are taken to be the same.
