# A verified model of the kernel's heap, scheduler and small drivers

This project models the hard parts of a small x86 kernel in Dafny and proves what they are for.

**The heap.** Free blocks live in a single-pass, top-down red-black tree ordered by size
(`kernel/rb_tree.c`). The colour of a node is bit 0 of its first link, blocks of equal size hang behind
one tree node on a third link, and removal finds, rebalances and unlinks in one descent. A boundary-tag
allocator (`kernel/mem_alloc.c`) works on top: best fit, cutting to an alignment, splitting,
merging on both sides, growing and shrinking by pages. Both are modelled on one word-addressed memory
(`Words.dfy`), with every link, tag, size and footer at its address.

- `RbShape` to `RbTakeOut` hold the theory of the tree on values: an intrinsic invariant (each node has
  an open interval of keys, a parent and a black height; every rule mentions one node and its kids), and for
  each rotation, flip, repair, push, unlinking and replacement that the code performs, the lemma that it keeps
  the invariant. `RbTree` is the class that performs them in memory. `RbMeaning` turns the local rules
  into a statement about an inductive tree: ordered, accepted by `assert_tree`, logarithmic in height.
- The hardest points of the tree are in `RbInsertWalk` (the great-grandparent `t` is stale only when no
  repair can be due, `Ready`/`Walk`) and `RbRemoveWalk`/`RbUnlink` (`fp` is the parent of `f` after every
  rotation, the descent ends at a red leaf or the root, and that leaf is the predecessor of `f`,
  `Trail`/`Pushed`).
- `Blocks` describes the heap as a row of blocks around a gap that the running operation owns, `Requests`
  the arithmetic of sizes, alignments and pages, `Stamps` the tags, `MemAlloc` the allocator, `HeapRuns`
  what users may rely on over every run, and `HeapExamples` heaps, reached from creation, on which the code does
  what its callers do not expect.

**The scheduler** (`kernel/scheduler.c`, `kernel/thread.c`) is a transition system with whole-run theorems
(`ThreadRing`), and a class over linked thread objects that refines it (`Scheduler`).

**Supporting cores**: the keyboard ring as a refinement of a bounded queue under every interleaving
(`Keyboard`), the frame bitmap and page entries (`Paging`), number conversion and its round trips
(`Numerals`, `Numbers`, `Formatting`).

## Conventions

- Pointers are byte addresses (`int`), NULL is 0, words are 4 bytes, `TOP` is 2^32. Where 32-bit
  wrap-around matters it is written out: `Wrap32` in `compare` and `get_block_size`, `Int32` in the parsers,
  the 20-bit frame field.
- The dummy root that `insert_rbnode` and `remove_rbnode` keep on the stack lies at the fixed address
  `HEAD`, below every heap.
- A class invariant is called `Valid`; a run is any sequence of calls, so what `Valid` (and `Session.Sound`)
  says holds in every reachable state. `Tree.Valid()` contains the premise of `RbMeaning.Meaning`.
- Regions with interrupts disabled are single steps. Memory, keys and timer ticks arrive as parameters.

## Where the code needs a condition

Each of these is a property that fails on some input. The example is a concrete input or a run from creation, and
the condition is exact.

- Expansion. When `max_size` refuses, `alloc` carries on with a hole of size 0 and overwrites the last footer: the
  heap stays intact exactly when there is room (`Allocator.MakeHole`; `HeapExamples.RefusedExpansion`). So without
  alignment the first pass of `alloc` keeps the heap exactly when a free block is large enough or one expansion has
  room (`Allocator.FirstPass`, `ServiceableUnaligned`), and then `Allocator.Alloc` meets the request.
- Alignment. With an alignment, `alloc` needs `Serviceable`: at each search no subtraction in `compare` wraps
  (`VerdictTrue`; `WrapExample`), which holds of itself when the request is at least as large as its alignment
  (`LargeIsClean`); blocks of one size all fit or all do not (`PickedFits`; `DuplicateMisaligned`); and a largest
  block fits or there is room to grow. An alignment above 1 must be a multiple of 4, or blocks leave the word grid
  and the colour tag is lost (`TagLossless`), and at most 2^32 - 28, so that the loop over offsets does not wrap.
- Size. A size above 2^32 - 20 wraps in `get_block_size` (`BlockSizeHolds`).
- Header magic. An aligned block that neither starts its hole nor is split behind keeps whatever word lay at its
  header (`Allocator.Carve`, `Signed`; `HeapExamples.UnsignedBlock`). `free` asserts the magic, so `Session` records
  for each live region whether it has it; unaligned regions always do.
- Contraction. Shrinking the heap can leave a splinter too small for its tags; `free` keeps the heap intact exactly
  when it does not (`FreeKeepsTiling`; `HeapExamples.Splinter`). `Allocator.CanFree` tells from the tags.
- `free` reads the size behind the last block; the model treats the end of the heap as "no neighbour".
- A wanted address. The comment above `remove_rbnode` says that with an address only the matching block is removed;
  the code does not ask for a node without duplicates (`PickedAddress`; `RbTree.WrongAddress`).
- `assert_tree` compares a node with its kids only. What it accepts is a search tree exactly when the comparisons
  along inner spines hold as well (`AcceptedOrdered`; `AcceptedNeedNotBeOrdered`).
- The kernel thread must not exit (`TickGood`; `KernelExitExample`).
- `clear_frame` compares a masked word with 1, so only frames at bit 0 of their word ever come back
  (`Paging.Memory.FreePage`; `Paging.LostFrame`). A frame number that does not fit its 20-bit field may clash
  (`AllocExclusive` says when), and `map_page` may map a frame twice (`ExclusiveMapped`).
- `strtol` accepts a letter whose value equals the base, and any decimal digit (`AcceptedBeyond`; `BeyondExamples`),
  and does not skip the prefix 0x (`HexPrefixStops`).

## Model

| member | source | states |
|---|---|---|
| Words.TagLossless | kernel/rb_tree.c:8-19 | a link survives next to the colour bit exactly when the pointer is even; painting keeps the link and linking keeps the colour |
| RbTree.Tree.Rotate | kernel/rb_tree.c:41-51 | the exact links and colours after a rotation, and nothing else changes |
| RbShape.RotStruct | kernel/rb_tree.c:41-51 | a rotation keeps the search-tree structure, with the key intervals of the two nodes exchanged |
| RbColor.FlipUp | kernel/rb_tree.c:97-102 | a colour flip keeps black heights and can break the red rule only at its node |
| RbColor.RepairOuter | kernel/rb_tree.c:108-109 | a single rotation repairs a red violation on the outside |
| RbColor.RepairInner | kernel/rb_tree.c:110-113 | a double rotation repairs a red violation on the inside |
| RbInsertWalk.RepairDue | kernel/rb_tree.c:104-114 | whenever a repair is due, t really is the parent of g, and the violation is the only one |
| RbInsertWalk.NextRepaired | kernel/rb_tree.c:128-136 | after a repair t, and after a double rotation g, may be stale, but the nodes ahead are then such that no repair is due before they are right again, and less of the tree lies ahead |
| RbInsertWalk.NextQuiet | kernel/rb_tree.c:128-136 | a round without repair hands a correct walk to the next round |
| RbTree.Tree.Descend | kernel/rb_tree.c:78-136 | the descent ends at the node of that size or at the new leaf, in a tree without violations |
| RbTree.Tree.Insert | kernel/rb_tree.c:53-146 | a valid tree holding the old nodes and the new one, chained as a duplicate iff its size was present, in front of its chain, all other chains unchanged, and no word written outside links of tree nodes |
| RbState.FirstSettled | kernel/rb_tree.c:64-69 | the first node makes a valid tree with exact counters |
| RbChains.ChainsPush | kernel/rb_tree.c:119-124 | prepending a duplicate keeps every chain finite, disjoint and of one size |
| RbTree.Tree.Compare | kernel/mem_alloc.c:61-92 | the verdict on a node for exact and best-fit searches, with wrap-around |
| Queries.GapLeast | kernel/mem_alloc.c:70-77 | the offset is the smallest one that aligns the user pointer and is 0 or a whole block |
| RbColor.PushTurn | kernel/rb_tree.c:184-194 | turning a red kid up keeps the tree and makes the current node red |
| RbColor.PushFlip | kernel/rb_tree.c:199-206 | the flip of parent and both kids keeps black heights |
| RbColor.PushOuter | kernel/rb_tree.c:207-221 | single rotation with recolouring keeps the tree valid and reddens n |
| RbColor.PushInner | kernel/rb_tree.c:207-221 | double rotation with recolouring keeps the tree valid and reddens n |
| RbRemoveWalk.StepDown | kernel/rb_tree.c:170-182 | one step of the search keeps that f, fp and the position of n belong together |
| RbRemoveWalk.TurnedDown | kernel/rb_tree.c:186-194 | fp is still the parent of f after n was turned down |
| RbRemoveWalk.SwungOuter | kernel/rb_tree.c:207-229 | fp is still the parent of f after the outer rotation at p |
| RbRemoveWalk.SwungInner | kernel/rb_tree.c:207-229 | fp is still the parent of f after the inner double rotation at p |
| RbRemoveWalk.SearchEnds | kernel/rb_tree.c:170-233 | where the descent ends decides the search: found node, smallest fitting size, or no such size |
| RbTree.Tree.Search | kernel/rb_tree.c:170-233 | a search rebalances but keeps the tree and its nodes, and ends at a node that can be unlinked |
| RbUnlink.StopsAtLeaf | kernel/rb_tree.c:263-266 | the last node of the descent is a leaf that is red or the root |
| RbUnlink.StopsAtPredecessor | kernel/rb_tree.c:263-276 | that leaf is the in-order predecessor of f, or f itself |
| RbUnlink.UnlinkLeaf | kernel/rb_tree.c:265-266 | unlinking it keeps order and black heights |
| RbUnlink.SwapIn | kernel/rb_tree.c:268-275 | a node that takes over place, kids and colour of another one keeps the tree |
| RbTree.Tree.FindDup | kernel/rb_tree.c:235-242 | the first duplicate that select_dup accepts, and its predecessor in the chain |
| RbTree.Tree.Unhook | kernel/rb_tree.c:234-276 | exactly the picked node is unlinked, only the chain of the found node changes, and both counters stay exact |
| RbTree.Tree.Remove | kernel/rb_tree.c:154-287 | a valid tree holding the old nodes less the returned one; which node that is, for exact, addressed and best-fit searches (there the first duplicate); counters and every chain accounted for; no word written outside links of tree nodes |
| RbTakeOut.Answers | kernel/rb_tree.c:170-262 | from the outcome of the descent: exact size and address, NULL iff nothing qualifies, smallest size at least the request without alignment |
| RbTakeOut.PickedFits | kernel/rb_tree.c:234-260 | the node removed for an aligned request passes compare itself iff the found node has no duplicates or the first one passes |
| RbTakeOut.DuplicateMisaligned | kernel/rb_tree.c:234-260 | a concrete aligned search that removes a node that does not pass compare |
| RbTakeOut.PickedAddress | kernel/rb_tree.c:148-153 | a wanted address is respected iff the found node has duplicates or is the wanted one |
| RbTree.WrongAddress | kernel/rb_tree.c:263-264 | a search for one address that takes out the node at another |
| RbMeaning.Meaning | kernel/rb_tree.c:397-437 | a valid tree unfolds to an inductive tree with strict order by size, no red pair, equal black heights, exactly the tree nodes, and logarithmic height |
| RbMeaning.UnfoldAccepted | kernel/rb_tree.c:397-437 | assert_tree returns the black height plus one |
| RbMeaning.AcceptedIsShallow | kernel/rb_tree.c:397-437 | what assert_tree accepts has height at most twice the logarithm of its size |
| RbMeaning.OrderedIffSpined | kernel/rb_tree.c:411-418 | a tree is a search tree between two bounds iff each key lies between its in-order neighbours and the ends are inside |
| RbMeaning.AcceptedOrdered | kernel/rb_tree.c:411-418 | what assert_tree accepts is a search tree iff the comparisons that it leaves out hold as well |
| RbMeaning.AcceptedNeedNotBeOrdered | kernel/rb_tree.c:411-418 | a tree that assert_tree accepts and that is not a search tree |
| Requests.BlockSizeHolds | kernel/mem_alloc.c:48-55 | the block is the smallest one on words that holds the request and its tags, iff no addition wrapped |
| Requests.VerdictTrue | kernel/mem_alloc.c:70-84 | compare says "fits" iff the block fits, exactly when the subtraction does not wrap |
| Requests.WrapExample | kernel/mem_alloc.c:78-79 | a 64-byte block that compare takes for a page-aligned request of 64 bytes |
| Requests.LargeIsClean | kernel/mem_alloc.c:70-84 | no subtraction wraps when the request is at least as large as its alignment and a smallest block |
| Requests.ServiceableUnaligned | kernel/mem_alloc.c:157-213 | without alignment a request can be met iff a free block is large enough or one expansion has room |
| Requests.GrownAmple | kernel/mem_alloc.c:167-213 | without alignment the grown or merged hole meets the request, so alloc recurses at most once |
| Requests.CutIsGap | kernel/mem_alloc.c:217-223 | alloc cuts off exactly the offset that compare allowed for |
| Requests.ShrunkStops | kernel/mem_alloc.c:133-155 | contraction gives back every page above the block and min_size, and not one more |
| Requests.ShrunkBounds | kernel/mem_alloc.c:133-155 | contraction stays on pages, at or above the freed block, and above min_size less one page |
| Requests.FreeKeepsTiling | kernel/mem_alloc.c:297-360 | merging and contraction leave a proper row of blocks iff no splinter remains |
| Requests.SplinterExample | kernel/mem_alloc.c:345-351 | a row of two blocks in which freeing the second leaves 8 bytes |
| HeapExamples.FirstStart | kernel/mem_alloc.c:371-378 | the first block of a heap whose record lies at 4096 starts at 4144 |
| HeapExamples.Splinter | kernel/mem_alloc.c:337-356 | two requests on a fresh heap of two pages that build that row |
| HeapExamples.FreeAll | kernel/mem_alloc.c:337-356 | freeing the only block of a heap of four pages gives back three |
| HeapExamples.UnsignedBlock | kernel/mem_alloc.c:217-228 | a request on a fresh heap whose block has no header magic, so that freeing it trips the assertion |
| HeapExamples.RefusedExpansion | kernel/mem_alloc.c:120-123 | a request on a fresh heap of one page that destroys the footer of its only block |
| Blocks.TilesApart | kernel/mem_alloc.c:26-28 | different blocks of a row never overlap |
| Blocks.UsedPlusUnused | kernel/mem_alloc.c:408-411 | used and free sizes add up to the heap |
| Blocks.TreeKeeps | kernel/mem_alloc.c:30-34 | a tree operation touches no tag and no word of a block in use |
| Stamps.LeftFooter | kernel/mem_alloc.c:315-320 | the test on the left footer succeeds iff there is a left neighbour and it is free, and then finds its header |
| Stamps.RightHeader | kernel/mem_alloc.c:297-302 | the test on the right header succeeds iff the right neighbour is free |
| MemAlloc.CreateMemAllocator | kernel/mem_alloc.c:363-401 | NULL iff an address is off a page; otherwise a valid heap of one hole, behind the record, on a multiple of the smallest block |
| MemAlloc.Allocator.constructor | kernel/mem_alloc.c:380-398 | one hole that fills the heap, in the tree |
| MemAlloc.Allocator.Expand | kernel/mem_alloc.c:108-131 | the end moves to the next page boundary at or above the target, or stays if that passes start + max_size |
| MemAlloc.Allocator.Contract | kernel/mem_alloc.c:133-155 | the end comes to rest on the one page boundary less than a page below the larger of target and min_size, or stays if it is not above that |
| MemAlloc.Allocator.MakeHole | kernel/mem_alloc.c:170-179 | the heap in front of the new hole is intact iff the expansion stays within max_size; otherwise the last footer is lost |
| MemAlloc.Allocator.FirstPass | kernel/mem_alloc.c:162-179 | without alignment, search and expansion keep the heap iff a free block is large enough or one expansion has room |
| MemAlloc.Allocator.Grow | kernel/mem_alloc.c:170-209 | new pages become one free block, merged with a free left neighbour, in a valid heap |
| MemAlloc.Allocator.AlignFront | kernel/mem_alloc.c:217-244 | the front that is cut off goes back to the tree as a block, and the rest is aligned |
| MemAlloc.Allocator.SplitTail | kernel/mem_alloc.c:246-268 | what is left behind the request goes back iff it makes a block |
| MemAlloc.Allocator.Carve | kernel/mem_alloc.c:215-271 | one block in use, aligned and large enough, in a valid heap; the exact pieces that the free block is cut into; and exactly when the block has its header magic |
| MemAlloc.Allocator.TakeBest | kernel/mem_alloc.c:162-165 | the block taken fits and is a smallest one without alignment; none is taken only if no largest block fits |
| MemAlloc.Allocator.Alloc | kernel/mem_alloc.c:157-272 | terminates with one new block in use that holds the request, aligned; the exact row of blocks afterwards; all other blocks in use and every word in them unchanged; the heap grows only when it must and at most once without alignment; best fit; and when the block has its header magic |
| MemAlloc.Allocator.MergeRight | kernel/mem_alloc.c:297-313 | a free right neighbour, and only that, is merged |
| MemAlloc.Allocator.MergeLeft | kernel/mem_alloc.c:315-333 | a free left neighbour, and only that, is merged |
| MemAlloc.Allocator.ContractBlock | kernel/mem_alloc.c:337-356 | the merged block shrinks with the heap, or disappears |
| MemAlloc.Allocator.Free | kernel/mem_alloc.c:274-361 | the exact row of blocks afterwards, exactly that block no longer in use, every page above the merged block and min_size given back and no more, every word of other blocks in use unchanged; nothing happens for NULL or a free block |
| MemAlloc.Allocator.CanFree | kernel/mem_alloc.c:297-345 | the tags in memory tell before the call whether free leaves a splinter |
| MemAlloc.Allocator.MemUsed | kernel/mem_alloc.c:403-406 | the sum of the sizes of blocks in use |
| MemAlloc.Allocator.MemFree | kernel/mem_alloc.c:408-411 | the sum of the sizes of free blocks |
| HeapRuns.RegionHolds | kernel/mem_alloc.c:13-28 | in every reachable state a live region lies inside the heap, aligned as asked, with at least the bytes asked for, and contains what was stored last |
| HeapRuns.RegionsApart | kernel/mem_alloc.c:13-28 | two live regions and their tags are disjoint |
| HeapRuns.RegionsOffTree | kernel/mem_alloc.c:30-34 | no free block, and so no tree node, reaches into a live region |
| HeapRuns.Session.Malloc | kernel/mem_alloc.c:157-272 | one region more, with its header magic if it is unaligned; every other one keeps its place, size, alignment, header magic and data |
| HeapRuns.Session.Release | kernel/mem_alloc.c:274-361 | one region less; every other one keeps its place, size, alignment, header magic and data; the heap stays within its bounds |
| HeapRuns.Session.CanRelease | kernel/mem_alloc.c:297-345 | whether a region can be freed without a splinter, from memory alone |
| HeapRuns.Session.Run | kernel/mem_alloc.c:157-361 | every run of unaligned requests, frees in any order and stores, by a client that looks at the limit and the tags first, keeps all of this |
| HeapRuns.Session.Load | kernel/mem_alloc.c:23-24 | a word reads as it was last stored, whatever happened to the heap in between |
| HeapRuns.EndKept | kernel/mem_alloc.c:337-356 | over every run the end stays at most start + max_size and above start + min_size less a page |
| ThreadRing.StepGood | kernel/scheduler.c:15-133 | creation, exit and tick keep a ring of distinct threads with the kernel thread and the current thread in it, as long as num_threads, without destroyed threads, and with every other thread READY |
| ThreadRing.TickSwitches | kernel/scheduler.c:99-121 | thread by thread: the next one becomes current and RUNNING, the one that leaves is last and READY, or gone and destroyed if it had finished, and nobody else changes |
| ThreadRing.ExitGoes | kernel/thread.c:167-175 | a thread that exits, and only that, is out of the ring and destroyed at the next tick |
| ThreadRing.RunLively | kernel/scheduler.c:99-121 | over every run, once a tick has switched, the current thread is RUNNING or FINISHED |
| ThreadRing.TickGood | kernel/scheduler.c:99-120 | a tick keeps that iff it does not find the kernel thread finished among others |
| ThreadRing.After | kernel/scheduler.c:15-133 | the same over every run |
| ThreadRing.Waiting | kernel/scheduler.c:64-133 | over every run a waiting thread comes forward by exactly the number of ticks |
| ThreadRing.TurnComes | kernel/scheduler.c:29-34 | a thread created in a ring of k threads becomes current at the k-th tick and not before |
| ThreadRing.Rounds | kernel/scheduler.c:64-133 | the threads that get a turn are those of the ring, in its order |
| ThreadRing.KernelExitExample | kernel/scheduler.c:39-43 | if the kernel thread exits, a destroyed thread stays in the ring |
| Scheduler.Kernel.ScheduleThread | kernel/scheduler.c:15-37 | the thread joins the circular list right behind everybody else, next and prev stay inverse |
| Scheduler.Kernel.UnscheduleThread | kernel/scheduler.c:39-55 | the list without that thread is circular again; the kernel thread stays |
| Scheduler.Kernel.NextReadyThread | kernel/scheduler.c:64-74 | the first thread behind the current one that does not sleep |
| Scheduler.Kernel.ScheduleTick | kernel/scheduler.c:76-133 | the linked threads make the tick of the transition system; states, ring, destroyed threads and counter are also stated on the threads themselves |
| Scheduler.Kernel.CreateKernelThread | kernel/thread.c:28-47 | a healthy ring of one thread, or none without memory |
| Scheduler.Kernel.CreateThread | kernel/thread.c:51-139 | a fresh READY thread with the next id joins at the end of the ring, or nothing happens without memory |
| Scheduler.Kernel.DestroyThread | kernel/thread.c:141-165 | one thread less |
| Scheduler.Kernel.ThreadExit | kernel/thread.c:167-175 | the current thread becomes FINISHED, and nothing else changes |
| Keyboard.Next | kernel/keyboard.c:115-134 | every step keeps that the accepted characters are the returned ones followed by at most 31 that wait |
| Keyboard.After | kernel/keyboard.c:115-134 | the same over every run, which only ever extends what was accepted and returned |
| Keyboard.NothingLost | kernel/keyboard.c:111-121 | up to 31 characters arrive as typed, however the reader is delayed |
| Keyboard.Progress | kernel/keyboard.c:125-134 | three reader steps for each of k waiting characters return them, in order, whatever interrupts come in between |
| Keyboard.Pace | kernel/keyboard.c:125-134 | the reader is never faster than three steps for a character |
| Keyboard.Delivered | kernel/keyboard.c:91-134 | up to 31 characters, however typed, reach the reader as typed |
| Keyboard.OneStep | kernel/keyboard.c:125-134 | a reader step with nothing waiting returns nothing; otherwise it is one of three, and the third returns the first waiting character |
| Keyboard.Push | kernel/keyboard.c:116-120 | the ring is full exactly at 31 characters, and a write never hits one that waits |
| Keyboard.Ring.Handler | kernel/keyboard.c:91-123 | the interrupt does what the queue does |
| Keyboard.Ring.ReaderStep | kernel/keyboard.c:125-134 | each of test, load and advance does what the queue does: which step follows, and what the last one returns |
| Keyboard.Interleave | kernel/keyboard.c:91-134 | for every interleaving the ring returns what the queue returns, a prefix of what was accepted |
| Paging.Memory.SetFrame | kernel/paging.c:32-38 | exactly that bit is set, and used_frames stays the number of set bits |
| Paging.Memory.ClearFrame | kernel/paging.c:40-46 | the bit is cleared iff it is bit 0 of its word, and used_frames stays the number of set bits |
| Paging.Memory.FirstFreeFrames | kernel/paging.c:48-74 | the lowest run of free frames, or -1 iff there is none among the scanned ones |
| Paging.Memory.MemoryUsed | kernel/paging.c:81-93 | used_frames times the frame size |
| Paging.Memory.MarkReserved | kernel/paging.c:100-103 | exactly that frame gets marked |
| Paging.Memory.AllocPage | kernel/paging.c:105-128 | an entry keeps its frame or gets the lowest free one, never frame 0, with the permissions asked for; no other entry or bit changes; frames stay exclusive iff the 20-bit field does not make two of one |
| Paging.AllocExclusive | kernel/paging.c:105-128 | that condition on the tables before the call |
| Paging.Memory.MapPage | kernel/paging.c:130-142 | frame and permissions of the entry, the mark of a frame that the machine has, and that nothing else changes |
| Paging.ExclusiveMapped | kernel/paging.c:130-142 | map_page keeps frames exclusive iff it maps frame 0 or a frame that has or gets its mark and that nobody else holds |
| Paging.Memory.FreePage | kernel/paging.c:144-151 | the entry lets go of its frame, frames stay exclusive, the frame is free again and used_frames one less iff it sits at bit 0 of its word, and nothing else changes |
| Paging.Memory.Finalize | kernel/paging.c:194-222 | boot reserves frame 0, maps each page to its frame with its permissions, keeps every mark, and leaves frames exclusive iff the machine has all the frames that it maps |
| Paging.StepWithheld | kernel/paging.c:105-151 | a marked frame that nobody holds is never handed out |
| Paging.StepOrderly | kernel/paging.c:100-151 | each call that keeps to the machine keeps frames exclusive and marked and frame 0 reserved, takes no frame that does not exist, and gives back only frames at bit 0 of a word |
| Paging.Run | kernel/paging.c:100-151 | the same over every run of alloc, map, free and reserve that keeps to the machine, with used_frames right throughout |
| Paging.EnoughFrames | kernel/paging.c:48-79 | every run of alloc, free and reserve keeps to the machine while it takes no more frames than the machine has free |
| Paging.Life | kernel/paging.c:183-222 | from paging_init through reserved addresses and the boot mapping to any such run, on every size of memory; no entry ever holds a reserved frame that boot did not map |
| Paging.FrameReused | kernel/paging.c:40-46 | a run in which frame 32 is freed and handed out again |
| Paging.LostFrame | kernel/paging.c:40-46 | a run in which a freed frame stays marked for ever |
| Numerals.NumeralValue | kernel/utils.c:76-79 | the digits of a number evaluate to it in the base |
| Numerals.NumeralDigits | kernel/utils.c:76-79 | every character is a digit of the base, and only 0 starts with a zero |
| Numerals.NumeralFits | kernel/vsprintf.c:21-21 | 32 digits are always enough |
| Numbers.Itoa | kernel/utils.c:65-89 | the buffer spells the number, most significant digit first, with a terminator, and is otherwise unchanged |
| Numbers.Strtol | kernel/utils.c:4-63 | sign, digits and stopping place for every string, with wrap-around |
| Numbers.AcceptedBeyond | kernel/utils.c:45-53 | exactly which characters strtol takes that are not digits of the base |
| Numbers.BeyondExamples | kernel/utils.c:45-53 | "g" is 16 in base 16 and "9" is 9 in base 2 |
| Numbers.RoundTrip | kernel/utils.c:4-89 | strtol stops at the terminator of what itoa wrote, and returns the value iff it fits a signed long |
| Numbers.NumeralRead | kernel/utils.c:14-56 | behind any blanks and with any sign, strtol reads what itoa wrote |
| Numbers.RoundTripMinus | kernel/utils.c:4-89 | with a minus sign the negated value comes back iff a long can hold it |
| Numbers.HexPrefixStops | kernel/utils.c:40-42 | strtol does not skip 0x in base 16: it returns 0 and stops at the x |
| Numbers.Atoi | kernel/utils.c:91-122 | base, digits and value for every string, with wrap-around |
| Numbers.RoundTripTen | kernel/utils.c:65-122 | atoi recovers a base-10 output of itoa iff it fits an int, in spite of the octal rule |
| Numbers.RoundTripPrefixed | kernel/utils.c:65-122 | atoi recovers an output of itoa behind 0x in base 16, behind 0 in base 8 and alone in base 10, after any spaces, iff it fits an int |
| Formatting.Number | kernel/vsprintf.c:19-133 | what a reader sees: blanks, sign, prefix, digits and blanks in the order and with the characters that the flags ask for; digits and sign evaluate to the number as an int or unsigned; the exact length; the result is that less one |
| Formatting.MinusOnce | kernel/vsprintf.c:36-50 | a minus sign is printed exactly for negative numbers, once, in front of all digits |
| Formatting.PaddedSide | kernel/vsprintf.c:82-130 | on which side the blanks are |
| Numerals.NumeralCount | kernel/vsprintf.c:61-71 | a numeral has exactly as many digits as its number needs |
| Formatting.LayoutLength | kernel/vsprintf.c:73-80 | the field has the larger of the width and what sign, prefix and max(precision, digits) need |
| Formatting.BodyValue | kernel/vsprintf.c:61-71 | whatever the precision, the digits evaluate to the magnitude of the number |
| Formatting.FillBuffer | kernel/vsprintf.c:61-71 | the digits in reverse, never more than the 64 characters of the buffer |

## Left out

- Mapping and unmapping the pages of the heap in `expand` and `contract`: the end address moves, the page table calls are modelled in `Paging` only.
- The allocator record in front of the heap: it is a class, not words of memory; the word before the first block is required to hold a value below the heap, as the left-footer test needs it to.
- MemAlloc.Allocator.Alloc: requires a serviceable request; what happens without room is `MakeHole`, and what follows on the broken heap is not modelled.
- Alignments that are neither 0, 1 nor a multiple of 4.
- Error messages, and magic words as a means to detect corruption: unreachable under the invariant.
- `lookup_rbnode`, `print_tree` and `height`: unused or debug output.
- HeapRuns.Session.Release: requires the header magic that `free` asserts, which every unaligned region has and the ledger records for the others, and that contraction leaves no splinter.
- Scheduler.Kernel.CreateThread: stack frames, priorities and page directories are not modelled, nor the blocks that leak when the second or third allocation fails.
- Scheduler.Kernel.ThreadExit: the switch that follows is the tick step; saved stack pointers and cycle counts are not modelled.
- Wrap-around of `num_threads` and of thread ids.
- Paging.Memory.FirstFreeFrames: the bitmap has a word for every frame, as many as the loops scan; in the source it is 32 times shorter and the scan leaves it.
- Paging.Memory.FreePage: the frame of the entry must be in the bitmap; for a frame that `map_page` took from beyond it the source reads memory that is not the bitmap.
- Words of the bitmap are 32 booleans each, and a masked word is its value as a signed int.
- `get_page`, page directories, `clone_page_directory`, `switch_page_directory`, page faults.
- Formatting.Number: the characters written through the pointer are returned as a sequence, and width and precision are unbounded.
- The key map, the echo to the screen and `keyboard_lastchar`; the rest of `vsprintf`; drivers, descriptor tables, boot code, the placement allocator and the file system: device work, or easy.
